# hyperf-dto: the data-transfer-object engine in Dafny

This project models `AbstractDataTransferObject` from the hyperf-dto package.
A DTO class declares public properties. `make($data)` creates an instance
and `fill`s it from an array. `fill`:

- looks each property up under its snake_case name first and its own name second;
- skips the properties listed in `_ignore`;
- applies an empty-input policy to typed properties;
- casts scalar values to their declared `int`, `bool` or `string` type;
- turns an array given for a DTO-typed property into a nested DTO through `buildObjectValue`.

`toArray($toUnderScore, $only, $keepNull)` turns an instance back into an
array:

- it writes the initialised properties in the order reflection lists them (a class's own properties before the ones it inherits);
- it drops nulls unless they are kept;
- it renames keys to snake_case on request;
- it converts nested DTOs recursively;
- it can restrict the result to a list of keys.

Two static caches sit behind both operations: the camelCase → snake_case
translations (`_underScoreCache`) and each class's public property list
(`_properties`).

The model has two layers.

- **Specification functions** on values:
  - `PhpValues` models PHP values: ordered arrays with string keys, array writes, `array_intersect_key`, and the `(int)`, `(bool)` and `(string)` casts.
  - `Naming` models the `toUnderScore` regular expression and `strtolower`.
  - `Schema` models what reflection reports about a class.
  - `Binding` models `make`, `fill`, `buildObjectValue` and `cast` as functions on DTO states.
  - `Serialization` models `toArray` on DTO states.
- **Imperative objects** in module `Engine`:
  - `Registry` holds the two static caches and fills them on a miss.
  - `DataTransferObject` holds the initialised properties and the four configuration properties as fields. `Fill` updates those fields in place, and a nested DTO is a separate object.
  - Every method is proved to follow the specification functions. The `Valid()` invariants say that each cache entry is what a miss would compute and that nested DTOs do not reach back to their parent.

Array keys are strings. PHP stores an integer key, or a string that is a
canonical decimal integer, as the same key. Reading integer keys as their
decimal strings therefore gives the same lookups.

The regular expression `/(?<=[a-z])([A-Z])/` puts an underscore only where
a capital directly follows a lower-case letter in the original name, so
`userID` becomes `user_id` (`Naming.SnakeCaseOfAcronym`).

## Model

| member | source | states |
|---|---|---|
| Naming.SnakeCase | src/AbstractDataTransferObject.php:229-233 | the converted name contains no upper-case ASCII letter |
| Naming.SnakeCaseIdempotent | src/AbstractDataTransferObject.php:229-233 | converting an already converted name changes nothing |
| Naming.SnakeCaseFixesLowerCase | src/AbstractDataTransferObject.php:229-233 | a name without upper-case ASCII letters (e.g. `id`) is returned as it is |
| Naming.SnakeCaseOnlyInsertsUnderscores | src/AbstractDataTransferObject.php:232 | with underscores removed, the result is the lower-cased name with its underscores removed; the length grows by exactly one per lower-to-upper boundary |
| Naming.InsertSeparatorsLength | src/AbstractDataTransferObject.php:232 | the `preg_replace` inserts exactly one underscore per lower-to-upper boundary of the original name |
| Naming.InsertSeparatorsWithoutBoundary | src/AbstractDataTransferObject.php:232 | a name without a lower-to-upper boundary is left as it is by the `preg_replace` |
| Naming.SnakeCaseOfCamelCase | src/AbstractDataTransferObject.php:232 | `userId` becomes `user_id` |
| Naming.SnakeCaseOfAcronym | src/AbstractDataTransferObject.php:232 | `userID` becomes `user_id`: a capital after a capital opens no new word |
| Naming.SnakeCaseAfterDigit | src/AbstractDataTransferObject.php:232 | `a1B` becomes `a1b`: a digit before a capital is no boundary |
| Naming.SnakeCaseOfLeadingCapitals | src/AbstractDataTransferObject.php:232 | `URLPath` becomes `urlpath`: no lower-case letter precedes any capital |
| Engine.Registry.constructor | src/AbstractDataTransferObject.php:28-34 | both static caches start empty and consistent |
| Engine.Registry.ToUnderScore | src/AbstractDataTransferObject.php:229-233 | the result is the snake_case name; an already cached name returns the cached value, so repeated calls agree with the first; the cache gains that entry and the property cache is untouched |
| Engine.Registry.GetProperties | src/AbstractDataTransferObject.php:239-254 | the result is the class's public properties in the order reflection lists them; a cached class returns the cached list; the cache gains that entry and the name cache is untouched |
| Schema.PublicProperties | src/AbstractDataTransferObject.php:248-250 | a descriptor is in the list exactly when a public property with that name and type is declared |
| Schema.PublicPropertiesConcat | src/AbstractDataTransferObject.php:248-250 | the list keeps the order of the declaration table: the list of a concatenation is the concatenation of the lists |
| Schema.PublicPropertiesUnique | src/AbstractDataTransferObject.php:248-250 | since PHP forbids two declared properties of the same name, no two entries of the property list share a name |
| Schema.WellTypedPropertyList | src/AbstractDataTransferObject.php:262-275 | when every declared type's `isBuiltin` flag agrees with its name, an `int`, `bool` or `string` property is builtin and so reaches `cast`, and a non-builtin type names no builtin type |
| Binding.PropertyListUnique | src/AbstractDataTransferObject.php:85 | the property list `fill` walks has unique names whenever the class's declared names are unique |
| PhpValues.Put | src/AbstractDataTransferObject.php:162 | `$data[$k] = $v`: the key then holds v, every other key keeps its value, an existing key keeps its position and a new one is appended, and keys stay unique |
| PhpValues.IntersectKey | src/AbstractDataTransferObject.php:166 | `array_intersect_key($data, array_flip($only))`: every kept key is in `only`, a key in `only` holds its value from `data` and any other key is absent, entries come from `data`, the kept keys are the keys of `data` in `only` in their order in `data`, and keys stay unique |
| PhpValues.IntOfDecimalString | src/AbstractDataTransferObject.php:269 | `(int)` of the decimal numeral of any 64-bit integer gives that integer back |
| PhpValues.IntOfString | src/AbstractDataTransferObject.php:269 | `(int)` of a string is always a 64-bit integer |
| PhpValues.IntOfOverflowingNumeral | src/AbstractDataTransferObject.php:269 | `(int)` of a numeral beyond the 64-bit range but within the double range (below 2^1024 - 2^970) saturates: `PHP_INT_MAX` for a positive one, `PHP_INT_MIN` for a negative one below it |
| PhpValues.IntOfInfiniteNumeral | src/AbstractDataTransferObject.php:269 | `(int)` of a numeral of 2^1024 - 2^970 or more, of either sign, is 0: it reads as an infinite double, which `zend_dval_to_lval_cap` turns into 0 |
| PhpValues.IntOf | src/AbstractDataTransferObject.php:269 | `(int)` leaves an integer as it is, and gives a 64-bit integer for a string |
| PhpValues.BoolOf | src/AbstractDataTransferObject.php:271 | `(bool)` leaves a boolean as it is |
| PhpValues.StringOf | src/AbstractDataTransferObject.php:272 | `(string)` leaves a string as it is |
| Binding.Fresh | src/AbstractDataTransferObject.php:67-69 | a container-made instance has its class's configuration; a property is initialised exactly when it is public and has an initial value, and (names being unique, as PHP requires) it holds that value as plain data |
| Schema.InitialValue | src/AbstractDataTransferObject.php:67-69 | a declared default is the initial value; an untyped property without one starts as null; a property is uninitialised exactly when it is typed and has no default |
| Schema.InitialValues | src/AbstractDataTransferObject.php:67-69 | the initialised properties are exactly the public ones with an initial value, and each holds that value when names are unique |
| Binding.Cast | src/AbstractDataTransferObject.php:262-275 | null on a nullable type stays null; `int`, `bool` and `string` produce a value of that kind; any other type name passes the value through; a value already of the type is unchanged |
| Binding.CoerceTypeSafe | src/AbstractDataTransferObject.php:111-120 | what is stored into an `int`, `bool` or `string` property has that type or is null on a nullable type; the property is skipped exactly when a non-string, non-nullable type gets null or `''` |
| Binding.CoerceKeepsTypedValue | src/AbstractDataTransferObject.php:111-120 | a value already of the declared type is stored unchanged |
| Binding.CoerceIdempotent | src/AbstractDataTransferObject.php:111-120 | coercing a coerced value again changes nothing |
| Binding.CoerceNumericString | src/AbstractDataTransferObject.php:120 | a decimal numeral for an `int` property is stored as the integer it denotes |
| Binding.Coerce | src/AbstractDataTransferObject.php:111-120 | the property is skipped exactly when a non-string, non-nullable type gets null or `''`; a nullable non-string type stores null for them; anything else is stored as `cast` returns it |
| Binding.SourceValue | src/AbstractDataTransferObject.php:94-102 | the value read is the value under the snake_case key (when conversion is on) or under the property name, and nothing is read exactly when neither key is present |
| Binding.Bind | src/AbstractDataTransferObject.php:105-121 | only an array for a class-typed property can throw or become a nested DTO, which is then of a declared class; the property is skipped exactly when a builtin type's coercion skips it |
| Binding.SourceValueChoice | src/AbstractDataTransferObject.php:94-102 | the snake_case key wins when `_toUnderScore` is set and that key is present; otherwise the property name is looked up; nothing is read exactly when neither key is present |
| Binding.FillProperty | src/AbstractDataTransferObject.php:87-123 | one pass changes at most the one property, never the class or configuration, changes nothing when it throws, and keeps nested DTOs of declared classes |
| Binding.FillUntouched | src/AbstractDataTransferObject.php:81-102 | on empty data, for an ignored property, or when neither key is present, the property keeps its value |
| Binding.FillEmptyData | src/AbstractDataTransferObject.php:81-83 | `fill([])` changes nothing and throws nothing |
| Binding.FillOnlyListedProperties | src/AbstractDataTransferObject.php:85 | a property outside the public property list keeps its value |
| Binding.FillFromLeaves | src/AbstractDataTransferObject.php:85-124 | the loop leaves a property alone when no descriptor names it, when it is ignored, or when its keys are missing |
| Binding.FillFromEffect | src/AbstractDataTransferObject.php:85-124 | with distinct property names and no exception, the loop leaves each property as its own pass alone would |
| Binding.FillEffect | src/AbstractDataTransferObject.php:79-127 | the same for the whole of `fill` on the class's property list |
| Binding.FillFrom | src/AbstractDataTransferObject.php:85-124 | the loop keeps the class and configuration, never uninitialises a property, and keeps nested DTOs of declared classes |
| Binding.Fill | src/AbstractDataTransferObject.php:79-127 | `fill` keeps the class and configuration, never uninitialises a property, and keeps nested DTOs of declared classes |
| Binding.FillUntypedProperty | src/AbstractDataTransferObject.php:94-102 | an untyped property receives the raw value from the snake_case key when that key wins, else from the property name |
| Binding.FillEmptyInputPolicy | src/AbstractDataTransferObject.php:111-119 | for a builtin type other than `string`, null or `''` stores null when the type is nullable and leaves the property as it was otherwise |
| Binding.FillCastsValue | src/AbstractDataTransferObject.php:111-123 | any other value for a builtin-typed property is stored cast to its type |
| Binding.FillNestedValue | src/AbstractDataTransferObject.php:105-108 | for a class-typed property, a non-array value is stored as it is, and an array becomes the DTO that `make` builds for that class from it |
| Binding.FillRejectsNonDtoClass | src/AbstractDataTransferObject.php:105-106 | an array given for a property typed with a class that is not a DTO class makes `fill` throw |
| Binding.FillFromEffectThrown | src/AbstractDataTransferObject.php:85-124 | when the loop throws nothing, none of its passes throws |
| Binding.FillFromThrows | src/AbstractDataTransferObject.php:85-124 | a pass that throws makes the loop throw |
| Binding.FillPropertyThrown | src/AbstractDataTransferObject.php:90-108 | whether a pass throws depends on the configuration and the data, not on the property values |
| Binding.FillPropertyLocal | src/AbstractDataTransferObject.php:87-123 | a pass reads no property other than its own |
| Binding.Make | src/AbstractDataTransferObject.php:64-72 | a made DTO has the requested class and that class's configuration, and its nested DTOs are of declared classes |
| Binding.MakeWithoutData | src/AbstractDataTransferObject.php:64-72 | `make([])` is the container-made instance |
| Binding.BuildObjectValue | src/AbstractDataTransferObject.php:209-222 | array data for a DTO class becomes a DTO of that class |
| Serialization.ToArray | src/AbstractDataTransferObject.php:136-170 | the output has no repeated key |
| Serialization.Emit | src/AbstractDataTransferObject.php:145-163 | the loop's output has unique keys and no null value when nulls are dropped |
| Serialization.Render | src/AbstractDataTransferObject.php:162 | plain data is written as it is, a nested DTO as an array with unique keys, and a non-null property never as null |
| Serialization.EmitKeys | src/AbstractDataTransferObject.php:145-163 | the output keys are the written keys in property-list order, each at its first occurrence |
| Serialization.EmitValue | src/AbstractDataTransferObject.php:162 | each key holds the value of the last property written under it, so a later property renamed to the same key overwrites an earlier one |
| Serialization.ToArrayContents | src/AbstractDataTransferObject.php:138-163 | without `only`: keys are the initialised (and, unless kept, non-null) properties' keys in the order reflection lists the properties, renamed when the resolved flag is on, and each holds its last writer's value |
| Serialization.ToArrayDistinctKeys | src/AbstractDataTransferObject.php:145-163 | when no two written properties share a key, the output keys are exactly the written keys in property-list order |
| Serialization.ToArrayDropsNulls | src/AbstractDataTransferObject.php:139-156 | with `keepNull` false, given or by default, no key holds null |
| Serialization.ToArrayOnly | src/AbstractDataTransferObject.php:165-167 | with `only`, every key is in `only`, each kept key holds its unfiltered value, and the keys are the unfiltered keys that are in `only`, in their unfiltered order |
| Serialization.ToArrayNested | src/AbstractDataTransferObject.php:162 | a nested DTO is written as its own toArray with the parent's snake_case flag and its own `keepNull` default |
| Serialization.FillThenToArray | src/AbstractDataTransferObject.php:94-123 | per-field round trip: a non-ignored scalar property filled from its snake_case key with a value of its declared type comes back unchanged under that key from `toArray(true, null, true)` |
| Serialization.FirstOccurrences | src/AbstractDataTransferObject.php:162 | each written key appears once, and exactly the written keys appear |
| Serialization.LastWriter | src/AbstractDataTransferObject.php:162 | the last property written under a key: it writes the key, no later one does, and there is none exactly when no property writes the key |
| Engine.DataTransferObject.constructor | src/AbstractDataTransferObject.php:67-69 | the new object represents the container-made instance |
| Engine.DataTransferObject.Make | src/AbstractDataTransferObject.php:64-72 | the result is an exception or a valid fresh object exactly as `Binding.Make` says |
| Engine.DataTransferObject.Fill | src/AbstractDataTransferObject.php:79-127 | after the in-place loop the object represents the state `Binding.Fill` computes, and the exception is the one it names |
| Engine.DataTransferObject.FillProperty | src/AbstractDataTransferObject.php:87-123 | one pass of the loop updates the object to `Binding.FillProperty`'s state |
| Engine.DataTransferObject.LookUp | src/AbstractDataTransferObject.php:94-102 | the value read is the one `Binding.SourceValue` chooses |
| Engine.DataTransferObject.Bind | src/AbstractDataTransferObject.php:105-121 | the value handling yields what `Binding.Bind` does: a new valid nested object, plain data, a skip, or the exception |
| Engine.DataTransferObject.Store | src/AbstractDataTransferObject.php:105-123 | the assignment at the end of a pass: throw and keep, skip and keep, or replace that one property |
| Engine.DataTransferObject.AssignValue | src/AbstractDataTransferObject.php:123 | writing plain data replaces that one property in the represented state |
| Engine.DataTransferObject.AssignObject | src/AbstractDataTransferObject.php:106 | writing a nested DTO replaces that one property with the child's state |
| Engine.DataTransferObject.BuildObjectValue | src/AbstractDataTransferObject.php:209-222 | the result is what `Binding.BuildObjectValue` says, with a fresh valid object for a nested DTO |
| Engine.DataTransferObject.ToArray | src/AbstractDataTransferObject.php:136-170 | the array built in the loop is `Serialization.ToArray` of the object's state |
| Engine.DataTransferObject.EmitProperty | src/AbstractDataTransferObject.php:146-162 | one pass of the loop extends the output as `Serialization.Emit` does and leaves the object unchanged |
| Engine.DataTransferObject.Render | src/AbstractDataTransferObject.php:152-162 | the value written is `Serialization.Render`'s, a nested DTO through its own `toArray` |

## Left out

- The container call in `make` (`ApplicationContext::getContainer()->make`) is foreign code. It is modelled as a new instance holding the class's configuration and declared property defaults. A typed property without a default starts uninitialised, and an untyped one starts as null, as PHP does. Dependency injection into the constructor is not modelled.
- Reflection is not modelled. A class's declarations are given as a table with each property's name, visibility, type, default, in the order reflection lists them: a class's own properties first, then the ones it inherits. Public static properties, which reflection would also list, are not modelled.
- `toJson`, `__toString` and `jsonSerialize` are left out because they hand `toArray`'s result to `json_encode`, an external encoder.
- Floats are left out. The type name `float` is excluded, so the `float` branch of `cast` is missing, and no value is a float.
- Binding.Cast: `(int)` of a string is modelled as leading white space, an optional sign and the leading decimal digits, saturating at the 64-bit bounds, and 0 for a magnitude of 2^1024 - 2^970 or more, which PHP reads as an infinite double. Strings in exponent or fractional form, such as `"1e3"` or `"1.5e3"`, which PHP reads as floats before converting, are not modelled.
- PHP's `TypeError` on assigning a value of the wrong type to a typed property, and its `Error` on `fill` assigning a `readonly` property (only the declaring class may initialise one), are not modelled: readonly properties are outside the model. For example, a string given for a DTO-typed property is stored as it is.
- Input data is plain data: no objects, closures or resources. So every nested DTO is built fresh by `make`, and no two properties share an object.
- Union and intersection property types are left out. A property is untyped or has one named type.
- `_ignore` is a list of strings compared by equality. `in_array`'s loose comparison agrees with this for property names, since those are never numeric.
- The static caches belong to one process, and concurrent access is not modelled. `strtolower` is ASCII-only, as in PHP 8.2 and later; before 8.2 it followed the C locale.
- src/Aspect/CoreMiddlewareAspect.php (framework interception of controller arguments) and src/ConfigProvider.php (a static configuration array) are not part of this model.
