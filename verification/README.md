# Delivery orders: validation, filtered listing, mirror table and database log sink

A Dafny model of the order-handling core of the Delivery web service, a small
ASP.NET Core CRUD service for delivery orders. An order has a name, a weight, a
destination district and a delivery date and time. The model covers five parts:

- **Order entity** (`Domain`, `order.dfy`): the order record and the DataAnnotations
  rules on it, evaluated the way `Validator.TryValidateObject` evaluates them.
  Per property, `[Required]` runs first and hides the other rules of that property when it
  fails. Otherwise every failing rule is reported, and properties never mask each other.
- **Order store** (`OrderRepository`, `repository.dfy`): the Orders table as
  `map<int, Order>`. It has the filtered listing (a closed 30-minute date window AND an exact
  district match) and the get, create, update and delete operations, which answer None
  (the repository's `null`) when the id is missing.
- **Filtered-orders mirror** (`FilteredOrdersLogger`, `mirror.dfy`): the mirror table as a
  sequence of rows. Clearing truncates it. Logging clamps each order's date into
  [1753-01-01, 9999-12-31 00:00] *in the order itself*, then appends one row per order that
  reuses the order's Id.
- **Database log sink** (`SqlServerLogger`, `sqllogger.dfy`): the severity gate
  (`>= Information`) and the one row an accepted event appends.
- **Controller** (`OrdersController`, `controller.dfy`): the decision table of the five
  HTTP actions. It covers the district check on the listing (done before any query), the
  clear-then-insert order of the mirror calls, and how exceptions map to 400 and 500.
  Each action's result and status code (200, 201, 400, 404, 500) is modelled.

`DotNet` (`dotnet.dfy`) holds the base-library behaviours the code relies on:
- `DateTime` as ticks in `[0, DateTime.MaxValue.Ticks]`;
- `AddMinutes`, including its overflow exception;
- `char.IsWhiteSpace`, which is also the regex class `\s`;
- `string.IsNullOrWhiteSpace`;
- the UTF-16 `string.Length`;
- `Convert.ToInt32(double)`.

Where the written specification and the code disagree, the model follows the code:
- No rule checks the delivery date against the current time. `DeliveryDateTime` carries
  only `[Required]`, which a value type always passes.
- Both Name and District accept ASCII letters only. The listing's district check also
  accepts Cyrillic letters.
- One message, "Вес должен быть до 100 кг", covers both weight bounds.
- The clamp of the mirror's dates is written back into the listed orders. So the listing's
  response carries the clamped dates as well.
- `[Range(0, 100)]` has integer bounds. So the double weight is first rounded to the
  nearest integer (ties to even) and only then compared. A weight from -0.5 to 100.5
  inclusive passes. A weight outside the 32-bit range makes validation throw. See
  Findings.

External effects are parameters:
- The id the database assigns on Create is an argument that is not yet a key.
- The database failures during a listing are a `ListFaults` argument: the query throws,
  the truncate throws, or the mirror writes first fail at a given step.
- The log formatter is a function argument.

## Model

| member | source | states |
|---|---|---|
| DotNet.CalendarConstants | Delivery/Logging/FilteredOrdersLogger.cs:42-49 | The clamp bounds are the Gregorian dates 1753-01-01 and 9999-12-31 at midnight; the latter is one day before `DateTime.MaxValue` ends |
| DotNet.AddMinutes | Delivery/Repositories/SQLOrderRepository.cs:39 | Shifting a date by whole minutes succeeds exactly when the result stays representable, and then moves it by that many minutes |
| DotNet.IsWhiteSpace | Delivery/Models/Domain/Order.cs:11 | `char.IsWhiteSpace`, also the regex class `\s`: the 25 Unicode White_Space characters (tab to carriage return, space, U+0085, U+00A0, U+1680, U+2000-U+200A, U+2028, U+2029, U+202F, U+205F, U+3000) |
| DotNet.IsBlank | Delivery/Controllers/OrdersController.cs:40 | `string.IsNullOrWhiteSpace` on a non-null string: every character is white space, the empty string included |
| DotNet.Utf16Length | Delivery/Models/Domain/Order.cs:10 | The length `[MaxLength]` measures is between the character count and twice it, and equals the character count iff no character needs a surrogate pair |
| DotNet.ToInt32 | Delivery/Models/Domain/Order.cs:14 | The conversion `[Range]` applies succeeds exactly on [-2147483648.5, 2147483647.5), lands within one half of the weight, and resolves halves to the even integer |
| Domain.MatchesLettersPattern | Delivery/Models/Domain/Order.cs:11 | The full match of `^[a-zA-Z\s]+$` that `[RegularExpression]` demands (also Order.cs:18): non-empty, every character an ASCII letter or white space |
| Domain.LettersFieldErrors | Delivery/Models/Domain/Order.cs:9-12 | A name or district is free of failures iff it is not blank, has at most 100 UTF-16 units and only ASCII letters or white space; the Required failure is reported iff the value is blank, the MaxLength failure iff it is non-blank and too long, the pattern failure (with the declared message) iff it is non-blank and fails the pattern, and nothing else is reported |
| Domain.Validate | Delivery/Models/Domain/Order.cs:6-22 | Validation throws exactly when the weight does not convert; otherwise the order has no failure at all iff the name and the district are each non-blank, at most 100 UTF-16 units and all ASCII letters or white space, and the weight lies in [-0.5, 100.5]; no failure ever concerns the delivery date |
| Domain.FieldsAreIndependent | Delivery/Models/Domain/Order.cs:9-19 | The failures reported for each property are that property's own rules on its own value; a valid Name never masks an invalid District, and the date never fails |
| Domain.NameRule | Delivery/Models/Domain/Order.cs:9-12 | The order has no Name failure iff the name is non-blank, at most 100 units long and all ASCII letters or white space |
| Domain.NameWithDigitOrForeignLetter | Delivery/Models/Domain/Order.cs:11 | A name holding a digit or a non-ASCII letter is reported with exactly "Имя может содержать только буквы и пробелы." |
| Domain.CyrillicNameRejected | Delivery/Models/Domain/Order.cs:11 | The Cyrillic name "Иван Иванов" fails the Name pattern |
| Domain.DistrictRule | Delivery/Models/Domain/Order.cs:16-19 | The order has no District failure iff the district meets the same rule; a bad character reports "Район может содержать только буквы и пробелы." |
| Domain.WeightErrors | Delivery/Models/Domain/Order.cs:13-15 | As written, the weight rule throws exactly outside [-2147483648.5, 2147483647.5); otherwise it passes iff -0.5 <= w <= 100.5, and either bound violation yields the single message "Вес должен быть до 100 кг" |
| Domain.WeightRangeContainsDeclared | Delivery/Models/Domain/Order.cs:14 | Every weight in [0, 100] passes, and a whole-number weight passes iff it lies in [0, 100] |
| Domain.WeightOverflowThrows | Delivery/Models/Domain/Order.cs:14-15 | Validation throws iff the weight lies outside [-2147483648.5, 2147483647.5) |
| Domain.DateAndIdAreUnchecked | Delivery/Models/Domain/Order.cs:8 | Changing the Id or the delivery date to any value at all, past or future, never changes the validation outcome |
| Domain.IntendedWeightErrors | Delivery/Models/Domain/Order.cs:14 | The double-bounded weight rule fails iff the weight lies outside [0, 100], with the declared message |
| Domain.ValidateAsIntended | Delivery/Models/Domain/Order.cs:6-22 | With the double-bounded rule, no weight failure is reported iff 0 <= w <= 100 |
| Domain.ValidateAsIntendedAgrees | Delivery/Models/Domain/Order.cs:6-22 | When validation as written completes (the weight is within the 32-bit range) and the weight is a whole number or lies in [0, 100], validation with the double-bounded rule reports exactly what validation as written reports |
| Domain.WeightAboveHundredAccepted | Delivery/Models/Domain/Order.cs:14 | As written, 100.5 kg and -0.5 kg pass where the double-bounded rule rejects them; 100.6 kg fails |
| Domain.IntendedAgreesOnIntegralWeights | Delivery/Models/Domain/Order.cs:14 | The two weight rules agree on every weight in [0, 100] and on every whole-number weight within the 32-bit range (outside it the rule as written throws) |
| OrderRepository.Ascending | Delivery/Repositories/SQLOrderRepository.cs:48 | The listing enumerates each stored key exactly once, in ascending order |
| OrderRepository.Rows | Delivery/Repositories/SQLOrderRepository.cs:35 | The unfiltered query holds exactly the stored orders, one per row, with distinct Ids when rows are keyed by their Id |
| OrderRepository.Matches | Delivery/Repositories/SQLOrderRepository.cs:41-45 | The two `Where` clauses: the date lies in the closed window when one is set, and the district equals the given one when it is not blank |
| OrderRepository.Select | Delivery/Repositories/SQLOrderRepository.cs:37-46 | Filtering keeps exactly the orders that meet both criteria, as a subsequence of its input (relative order kept), and keeps ascending Id order |
| OrderRepository.GetAll | Delivery/Repositories/SQLOrderRepository.cs:33-49 | The listing holds exactly the stored orders with fromDate <= date <= fromDate + 30 min (when a date is given) AND district equal to the given non-blank one; it throws exactly when the window end is unrepresentable |
| OrderRepository.GetAllUnfiltered | Delivery/Repositories/SQLOrderRepository.cs:33-48 | With no date and a null or blank district the listing holds every stored order |
| OrderRepository.GetAllCountsMatches | Delivery/Repositories/SQLOrderRepository.cs:33-48 | The listing never holds an order twice, and each listed order is the stored row under its Id |
| OrderRepository.GetById | Delivery/Repositories/SQLOrderRepository.cs:51-54 | The lookup answers the stored order, or None exactly when the id is absent |
| OrderRepository.Create | Delivery/Repositories/SQLOrderRepository.cs:16-21 | The order is stored under a fresh id and returned with that id; every other row is untouched |
| OrderRepository.Update | Delivery/Repositories/SQLOrderRepository.cs:56-68 | On a missing id it answers None and keeps the table; otherwise only Name, Weight, District and the date of that row change, its Id is kept, and the updated row is returned |
| OrderRepository.Delete | Delivery/Repositories/SQLOrderRepository.cs:23-31 | On a missing id it answers None and keeps the table; otherwise it removes only that row and answers it as it was |
| OrderRepository.WellKeyedPreserved | Delivery/Repositories/SQLOrderRepository.cs:16-68 | Create, Update and Delete keep every row stored under its own Id |
| OrderRepository.CreateThenGetById | Delivery/Repositories/SQLOrderRepository.cs:16-21 | Reading a created order back by its new id gives the same business fields |
| OrderRepository.UpdateThenGetById | Delivery/Repositories/SQLOrderRepository.cs:56-68 | Reading an updated id back gives what Update answered |
| OrderRepository.DeleteThenGetById | Delivery/Repositories/SQLOrderRepository.cs:23-31 | After a delete, the id is not found |
| FilteredOrdersLogger.ClearTable | Delivery/Logging/FilteredOrdersLogger.cs:14-24 | The mirror table is empty afterwards, whatever it held |
| FilteredOrdersLogger.ClampDate | Delivery/Logging/FilteredOrdersLogger.cs:42-49 | Dates before 1753-01-01 become 1753-01-01, dates after 9999-12-31 00:00 become that instant, other dates are kept; the result is always within the two |
| FilteredOrdersLogger.ClampIdempotent | Delivery/Logging/FilteredOrdersLogger.cs:42-49 | Clamping twice equals clamping once, and a date is moved iff it was out of range |
| FilteredOrdersLogger.ClampMonotonic | Delivery/Logging/FilteredOrdersLogger.cs:42-49 | The clamp preserves the order of dates |
| FilteredOrdersLogger.Clamped | Delivery/Logging/FilteredOrdersLogger.cs:42-49 | The order after the in-place clamp: only its date changes, the new date lies in [1753-01-01, 9999-12-31 00:00], and the order is unchanged iff its date was already there |
| FilteredOrdersLogger.RowOf | Delivery/Logging/FilteredOrdersLogger.cs:50-54 | The insert's parameters: the row copies the (clamped) order's Id, Name, Weight, District and date |
| FilteredOrdersLogger.LogOrders | Delivery/Logging/FilteredOrdersLogger.cs:25-63 | Rows are appended behind the existing ones, one per order in order, each the order's fields with the clamped date; the clamp is written back into the orders; a failing command leaves the earlier rows and clamps in place: nothing when opening or `IDENTITY_INSERT ON` fails, the rows before the failing insert, and every row and clamp when `IDENTITY_INSERT OFF` fails |
| FilteredOrdersLogger.MirrorAfterClear | Delivery/Logging/FilteredOrdersLogger.cs:14-55 | Clearing and then logging leaves exactly one row per order, with its Id, Name, Weight and District and a date inside the clamp range |
| FilteredOrdersLogger.LogOrdersKeepsEarlierRows | Delivery/Logging/FilteredOrdersLogger.cs:25-63 | Logging without clearing keeps all earlier rows in front |
| FilteredOrdersLogger.ClampLeaksToCaller | Delivery/Logging/FilteredOrdersLogger.cs:44-48 | After logging, each order the caller holds carries the date of its mirror row, and only the date changed |
| FilteredOrdersLogger.LogOrdersStable | Delivery/Logging/FilteredOrdersLogger.cs:42-55 | Logging the already clamped orders again writes the same rows and changes no order |
| SqlServerLogger.LevelName | Delivery/Logging/SqlServerLoggerProvider.cs:59 | `LogLevel.ToString()`: each level is written under its member name |
| SqlServerLogger.LevelNameInjective | Delivery/Logging/SqlServerLoggerProvider.cs:59 | Distinct levels are written under distinct Level names |
| SqlServerLogger.CreateLogger | Delivery/Logging/SqlServerLoggerProvider.cs:14-17 | The logger keeps the category it was created for and the provider's connection string |
| SqlServerLogger.IsEnabled | Delivery/Logging/SqlServerLoggerProvider.cs:42-45 | The gate compares the level's numeric value with that of Information |
| SqlServerLogger.EnabledLevels | Delivery/Logging/SqlServerLoggerProvider.cs:42-45 | The gate drops Trace and Debug and accepts Information, Warning, Error, Critical and None |
| SqlServerLogger.ExceptionColumn | Delivery/Logging/SqlServerLoggerProvider.cs:62 | The Exception column holds the exception's text, or the empty string when there is none |
| SqlServerLogger.Log | Delivery/Logging/SqlServerLoggerProvider.cs:47-66 | A disabled level leaves the table as it was; an enabled one appends exactly one row with the level's name, the formatted message, the logger's category as Source and the exception column |
| SqlServerLogger.DisabledIgnoresFormatter | Delivery/Logging/SqlServerLoggerProvider.cs:49-51 | Below the gate the formatter's result plays no part: any two formatters give the same table |
| SqlServerLogger.SourceIsCategory | Delivery/Logging/SqlServerLoggerProvider.cs:14-61 | A row written through a created logger names the category it was created for as its Source |
| OrdersController.ToDto | Delivery/Controllers/OrdersController.cs:89 | `mapper.Map<OrderDto>` (also lines 106, 129, 151): the transfer object copies Id, Name, Weight, District and the date |
| OrdersController.ToDtos | Delivery/Controllers/OrdersController.cs:55 | `mapper.Map<List<OrderDto>>`: one transfer object per order, in the same order, each the mapping of that order |
| OrdersController.FromRequest | Delivery/Controllers/OrdersController.cs:100 | `mapper.Map<Order>` of a request (also line 117): the four business fields copied, with the Id left at its default 0 because the request carries none |
| OrdersController.StatusCode | Delivery/Controllers/OrdersController.cs:42-151 | The HTTP code of each result: `Ok` 200, `CreatedAtAction` 201, `BadRequest` 400, `NotFound` 404, `StatusCode(500, …)` its code |
| OrdersController.MatchesDistrictQuery | Delivery/Controllers/OrdersController.cs:40 | `Regex.IsMatch(district, @"^[a-zA-Zа-яА-ЯёЁ\s]+$")`: non-empty, and every character an ASCII letter, a Cyrillic letter in А-я, Ё or ё, or white space |
| OrdersController.RejectsDistrict | Delivery/Controllers/OrdersController.cs:40-43 | The listing turns a district away exactly when it is given, not blank, and fails the query class |
| OrdersController.RunQuery | Delivery/Controllers/OrdersController.cs:44-66 | Past the window: 200 iff neither the query, the truncate nor a mirror command fails, carrying the clamped orders that match the mirror rows one for one; any failure is 500 with the generic message; a failing query or truncate leaves the mirror as it was, otherwise the mirror is what logging onto the cleared table left; after a failing query neither the clear nor the mirror is called |
| OrdersController.GetAll | Delivery/Controllers/OrdersController.cs:37-67 | A non-blank district outside [a-zA-Zа-яА-ЯёЁ\s] gives 400 with the district message and no database call; otherwise the calls are query, clear, log in that order; 200 carries the clamped query result, matching the mirror row for row; an overflowing window gives 400 with .NET's date-arithmetic message; after a successful window, 200 holds iff neither the query, the truncate nor any mirror command fails, and every other outcome is 500 with the generic message, leaving the mirror untouched when the query or truncate failed; 404 never occurs |
| OrdersController.BlankDistrictIsQueried | Delivery/Controllers/OrdersController.cs:40-46 | A null or blank district skips the check and the store is queried |
| OrdersController.NothingMatchedIsOk | Delivery/Controllers/OrdersController.cs:46-55 | An empty query result answers 200 with an empty list and leaves the mirror empty |
| OrdersController.ListingSucceeds | Delivery/Controllers/OrdersController.cs:44-56 | Without failures an accepted listing answers 200, and each listed order carries the Id and clamped date of its mirror row |
| OrdersController.WindowOverflowIsBadRequest | Delivery/Controllers/OrdersController.cs:57-61 | An unrepresentable window end is an ArgumentException: 400 with "The added or subtracted value results in an un-representable DateTime. (Parameter 'value')", after only the query step, with the mirror untouched |
| OrdersController.MirrorFailureIsServerError | Delivery/Controllers/OrdersController.cs:62-66 | A failing mirror insert answers 500 with the generic message, and the mirror keeps only the rows written before it |
| OrdersController.DatabaseFailureIsServerError | Delivery/Controllers/OrdersController.cs:44-66 | A failing query, truncate, connection open or `IDENTITY_INSERT` toggle answers 500 with the generic message; a failing query or truncate leaves the mirror as it was, a failure before the inserts leaves it empty, and a failure after them leaves one row per listed order |
| OrdersController.EntityDistrictsPassQuery | Delivery/Controllers/OrdersController.cs:40 | Every district the entity's District rule accepts also passes the listing's check |
| OrdersController.CyrillicDistrictDisagreement | Delivery/Controllers/OrdersController.cs:40 | "Центральный" passes the listing's check but fails the entity's District pattern |
| OrdersController.InvalidDistrictIsAccepted | Delivery/Controllers/OrdersController.cs:40-43 | The district "Invalid District" passes the listing's check and is never answered with the district message |
| OrdersController.GetById | Delivery/Controllers/OrdersController.cs:76-90 | 404 exactly when the id is absent, otherwise 200 with the mapped stored order |
| OrdersController.Create | Delivery/Controllers/OrdersController.cs:96-108 | 201 pointing at GetById with route id equal to the new order's Id and the mapped stored order as body; the request's fields are stored under the new id |
| OrdersController.Update | Delivery/Controllers/OrdersController.cs:113-130 | 404 with the table unchanged exactly when the id is absent, otherwise 200 with the mapped updated order carrying the request's four fields; the rows under every other id are untouched |
| OrdersController.Delete | Delivery/Controllers/OrdersController.cs:137-152 | 404 with the table unchanged exactly when the id is absent, otherwise 200 with the mapped removed order; only that key leaves the table and every other row is kept as it was |
| OrdersController.CreateThenGet | Delivery/Controllers/OrdersController.cs:96-108 | Reading a created order back by the route id answers 200 with the same transfer object |
| OrdersController.UpdateThenGet | Delivery/Controllers/OrdersController.cs:113-130 | A GET after a PUT of the same id answers what the PUT answered: 404 for a missing id, otherwise 200 with the same updated transfer object |
| OrdersController.DeleteThenGet | Delivery/Controllers/OrdersController.cs:137-152 | After a delete, reading the id back answers 404 |

## Left out

- Validation is a standalone function. Nothing in the pipeline runs it: EF Core does not
  check DataAnnotations when it saves. The request transfer objects, whose attributes the
  framework would check, are not part of this model.
- Null strings are not modelled. `[Required]` and `IsNullOrWhiteSpace` treat null like a blank string.
- Weight is a `real`. NaN, the infinities and double rounding are left out. Only
  comparisons and the integer conversion matter here.
- The database returns listing rows in no specified order. The model lists them by
  ascending Id, and every listing property is about membership and distinctness.
- OrderRepository.GetAll: the district filter is exact string equality. SQL Server's collation may make the comparison case- or accent-insensitive, and its `=` ignores trailing spaces whatever the collation: a query for "Center " also matches a stored "Center". Neither is modelled.
- Create takes the id that the identity column would assign as an argument. The
  database errors that Create and Update can raise are not modelled:
  - an explicit non-zero Id;
  - a Name or District longer than its column.
  These errors are not caught by the controller.
- The `datetime` column rounds to 1/300 s, and the mirror's parameter names differ in
  case from the insert's. Neither is modelled.
- Connection handling is left out, as are `IDENTITY_INSERT` and `TRUNCATE` as commands.
  Their effects are modelled as sequence operations plus the failure points in
  `MirrorFault` and `ListFaults`.
- The controller's own informational and warning log calls are left out. They are a side
  channel with opaque text. So are a failing log write and the logging configuration's
  per-category filters.
- Numeric `LogLevel` values outside the named members are left out.
- `BeginScope` and `Dispose` are left out: they do nothing.
- Concurrency, async plumbing and the race between two listings' truncate and insert are left out.
- AutoMapper's configuration is reduced to field-for-field copies. Route templates, DI
  wiring, Swagger and hosting are left out.
- Mapping failures (a 500 in the listing) are left out, because the mappings are total
  field copies.

## Findings

| source | as written | input that shows it | evidently intended | confidence | as-written member | corrected member |
|---|---|---|---|---|---|---|
| Delivery/Models/Domain/Order.cs:14 | `[Range(0, 100)]` with integer bounds converts the double weight with `Convert.ToInt32` (round half to even) before comparing | Weight 100.5 or -0.5 passes validation; 100.6 fails | weights from 0 to 100 kg inclusive, compared as doubles | medium; not executed | Domain.WeightAboveHundredAccepted | Domain.IntendedWeightErrors |

`Domain.ValidateAsIntended` is whole-order validation with the corrected weight rule.
The model's other parts never consume validation results, so nothing else depends on
which rule is used.
