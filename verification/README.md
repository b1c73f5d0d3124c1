# Contacts and weather: a Dafny model of the demo app's logic

The app has three screens. Two of them hold logic worth stating; the model
covers both.

- **Contacts.** The "Add New Contact" dialog checks name, mobile number and
  e-mail on every keystroke. Save checks them again. If all three pass, it
  builds a `Contacts` record with a random id and hands it to Room. The Room
  table (`ContactDAO`) supports list, insert, update and delete by primary
  key.
- **Weather.** `WeatherViewModel` keeps a newest-first list of weather cards.
  It has a label for 24 WMO weather codes, "Unknown" for any other code,
  and a table of six cities.
  Each search goes through `fetchWeather`. For a known city it replaces
  the cards for that city; an unknown city only adds an error card in
  front and leaves the existing cards, duplicates included, as they were.

Modules, following the source files:

| file | module | models |
|---|---|---|
| `wrappers.dfy` | `Wrappers` | `Option`, standing for Kotlin's nullable values |
| `platform.dfy` | `Platform` | the Kotlin and Android library calls the app makes: `isBlank`, `isDigit`, `trim`, `equals(ignoreCase = true)` and `lowercase` |
| `contacts.dfy` | `Contacts` | the `Contacts` entity |
| `contact_dao.dfy` | `ContactDao` | the Room table behind `ContactDAO` |
| `contact_form.dfy` | `ContactForm` | `ContactFormDialog`: the field rules, Save, and the insert it issues |
| `weather.dfy` | `Weather` | `WeatherViewModel`, plus the Search button of `WeatherActivity` |

The character classes, case mappings and `Patterns.EMAIL_ADDRESS` are
Unicode tables and an Android regular expression. None of them is written
out here. A `Platform.Library` value holds them as functions and every
operation takes one, so each property holds for any contents of those
tables. Three lemmas also need a concrete fact: `String.lowercase()` maps
ASCII 'A'..'Z' to 'a'..'z' and leaves other ASCII alone. They state it as
`requires AsciiLowercase(lib)`.

The Room behaviour does not appear in the app's code. It follows from the
annotations (`@PrimaryKey(autoGenerate = true)`, `@Insert`, `@Update`,
`@Delete`), and `ContactDao` makes these rules explicit:

- An insert whose id is 0 gets a fresh id from SQLite's AUTOINCREMENT. That
  id is larger than any id the table has held.
- An insert whose id is already present aborts and writes nothing.
- Update and delete find the row by its id and ignore the other fields.
- The list query has no ORDER BY, so the row order is left open.

Two details of the id come from the code:
- The dialog draws the id from `0..1000000`.
- Room reads a draw of 0 as "unassigned", so that record gets an id chosen
  by the table, not 0.

## Model

| member | source | states |
|---|---|---|
| Platform.Trim | app/src/main/java/com/example/myapplication/WeatherActivity.kt:61-65 | the trimmed search text is the slice of the input with only whitespace around it and none at its ends; it is empty exactly when the input is blank |
| Platform.EqualsIgnoreCaseIsReflexiveAndSymmetric | app/src/main/java/com/example/myapplication/WeatherViewModel.kt:89 | the ignore-case comparison used to drop cards holds of a city and itself, and is symmetric, for any case tables |
| Platform.IsBlank | app/src/main/java/com/example/myapplication/ContactActivity.kt:252 | `isBlank()`: the empty string is blank, and a string is blank exactly when a scan from the start for a non-whitespace character reaches the end |
| Platform.AllDigits | app/src/main/java/com/example/myapplication/ContactActivity.kt:269 | `all { isDigit() }`: true of the empty string, and otherwise true exactly when the first character is a digit and the rest are all digits |
| Platform.EqualsIgnoreCase | app/src/main/java/com/example/myapplication/WeatherViewModel.kt:89 | `equals(ignoreCase = true)`: strings that compare equal have the same length, and every string equals itself |
| ContactDao.EmptyIsValid | app/src/main/java/com/example/myapplication/db/Contacts.kt:6-7 | a new table has no records and meets the key invariant |
| ContactDao.StoredIdsAreUnique | app/src/main/java/com/example/myapplication/db/Contacts.kt:6-7 | `id` is the primary key, so two stored records with the same id are the same record, and a record is stored exactly when its id maps to it |
| ContactDao.AddContact | app/src/main/java/com/example/myapplication/db/ContactDAO.kt:17-18 | a used nonzero id aborts and leaves the table unchanged; id 0 stores the record under a fresh id above every id used so far, since the high-water mark never decreases (update and delete leave it as it is); an unused id stores exactly that record; nothing else changes and the key invariant holds |
| ContactDao.UpdateContact | app/src/main/java/com/example/myapplication/db/ContactDAO.kt:20-21 | replaces the row with the same id and returns 1; with an absent id returns 0 and changes nothing |
| ContactDao.DeleteContact | app/src/main/java/com/example/myapplication/db/ContactDAO.kt:23-24 | removes the row with the argument's id and no other; an absent id leaves the table unchanged |
| ContactDao.DeleteIsIdempotent | app/src/main/java/com/example/myapplication/db/ContactDAO.kt:23-24 | deleting the same id twice equals deleting it once |
| ContactDao.GetAllContacts | app/src/main/java/com/example/myapplication/db/ContactDAO.kt:13-14 | the snapshot lists every stored record exactly once and nothing else, in an unspecified order |
| ContactForm.MessagesAreDistinct | app/src/main/java/com/example/myapplication/ContactActivity.kt:250-296 | the five error texts are pairwise different |
| ContactForm.ValidateName | app/src/main/java/com/example/myapplication/ContactActivity.kt:250-253 | the name error appears exactly when no character of the name is non-whitespace (empty included) |
| ContactForm.ValidateMobile | app/src/main/java/com/example/myapplication/ContactActivity.kt:265-274 | blank gives "required" and never the digits error; non-blank with a non-digit gives the digits error; non-blank and all digits gives no error |
| ContactForm.ValidateEmail | app/src/main/java/com/example/myapplication/ContactActivity.kt:287-296 | blank gives "required"; non-blank that fails the e-mail pattern gives "invalid"; otherwise no error |
| ContactForm.OnNameChange | app/src/main/java/com/example/myapplication/ContactActivity.kt:250-253 | a name keystroke changes only the name and its error slot; the slot shows "required" exactly when the new text is blank |
| ContactForm.OnMobileChange | app/src/main/java/com/example/myapplication/ContactActivity.kt:265-274 | a mobile keystroke changes only the number and its slot: "required" when blank, the digits error when non-blank with a non-digit, nothing otherwise |
| ContactForm.OnEmailChange | app/src/main/java/com/example/myapplication/ContactActivity.kt:287-296 | an e-mail keystroke changes only the address and its slot: "required" when blank, "invalid" when non-blank and failing the pattern, nothing otherwise |
| ContactForm.OnDescriptionChange | app/src/main/java/com/example/myapplication/ContactActivity.kt:309 | a description keystroke sets the description to the new text and changes nothing else |
| ContactForm.KeystrokeAgreesWithSave | app/src/main/java/com/example/myapplication/ContactActivity.kt:331-347 | a keystroke changes only its own field and error, and sets the error to what Save computes from the same text |
| ContactForm.DescriptionIsNeverChecked | app/src/main/java/com/example/myapplication/ContactActivity.kt:306-310 | any description, the empty one included, leaves every error and the Save decision unchanged and is stored as typed |
| ContactForm.OnSave | app/src/main/java/com/example/myapplication/ContactActivity.kt:331-360 | all three errors are recomputed from the current text; a record is built exactly when the three rules pass, with the exact field values and an id in [0, 1000000] |
| ContactForm.SaveIgnoresStaleErrors | app/src/main/java/com/example/myapplication/ContactActivity.kt:333-350 | two forms with the same text save identically, whatever their error slots held before |
| ContactForm.OpenedDialogIsRejected | app/src/main/java/com/example/myapplication/ContactActivity.kt:219-226 | Save on the freshly opened dialog (empty fields, no errors shown) is rejected with all three "required" errors |
| ContactForm.Submit | app/src/main/java/com/example/myapplication/ContactActivity.kt:349-368 | success is signalled exactly when the rules pass; on failure the table is unchanged; on success the record is added under the drawn id, under a fresh id for a draw of 0, or not at all when the drawn id is taken, and success is still signalled |
| ContactForm.SubmitKeepsRecordsAcceptable | app/src/main/java/com/example/myapplication/ContactActivity.kt:349-363 | if every stored record passes the field rules, it still holds after a Save |
| ContactForm.DeleteKeepsRecordsAcceptable | app/src/main/java/com/example/myapplication/ContactViewModel.kt:21-25 | deleting from the list keeps every stored record passing the field rules (the DAO operation itself; the main-thread call is under Left out) |
| ContactForm.EmptyNameIsRefused | app/src/main/java/com/example/myapplication/ContactActivity.kt:333-350 | an empty name is refused with the name error, whatever the other fields hold, and the table is unchanged |
| ContactForm.RandomIdCollisionLosesContact | app/src/main/java/com/example/myapplication/ContactActivity.kt:353-363 | an accepted form whose drawn id is already stored is reported as saved, but the table is unchanged |
| ContactForm.AnnCollidesWithContact42 | app/src/main/java/com/example/myapplication/ContactActivity.kt:353-363 | concrete case: with contact 42 stored and a draw of 42, "Ann" is reported as saved and is not in the table |
| ContactForm.SubmitStoreAssigned | app/src/main/java/com/example/myapplication/db/Contacts.kt:7 | when the table assigns the id, every accepted form is stored under an id no other record has, and the rest of the table is unchanged |
| ContactForm.AnnIsStored | app/src/main/java/com/example/myapplication/ContactActivity.kt:331-363 | concrete case: the form {Ann, 12345, ann@x.com, ""} is accepted and stored with exactly those values under a fresh id (table-assigned id, as in `SubmitStoreAssigned`) |
| Weather.WeatherDescription | app/src/main/java/com/example/myapplication/WeatherViewModel.kt:43-57 | every code in the WMO label table gets its label and every other integer gets "Unknown" |
| Weather.DescriptionFacts | app/src/main/java/com/example/myapplication/WeatherViewModel.kt:44-55 | "Unknown" exactly off the table; "Clear sky" only for 0; "Partly cloudy" exactly for 1 to 3, so the mapping is not injective |
| Weather.GetCityCoordinates | app/src/main/java/com/example/myapplication/WeatherViewModel.kt:59-69 | the lower-cased input matching one of six keys gives that city's coordinates; the (0, 0) sentinel comes back exactly when it matches none |
| Weather.LookupIgnoresCaseButNotSpaces | app/src/main/java/com/example/myapplication/WeatherViewModel.kt:60 | "London", "LONDON" and "new YORK" are found; " London" and "London " are not, because the lookup does not trim |
| Weather.Found | app/src/main/java/com/example/myapplication/WeatherViewModel.kt:80-81 | the `lat == 0.0 && lon == 0.0` test succeeds exactly when the lower-cased city matches none of the six keys |
| Weather.RemoveCity | app/src/main/java/com/example/myapplication/WeatherViewModel.kt:89 | drops exactly the cards whose city equals the given one ignoring case, and keeps every other card as often as it occurred, in its original order |
| Weather.RemoveCityDistributes | app/src/main/java/com/example/myapplication/WeatherViewModel.kt:104 | the filter can be applied piece by piece (filtering a concatenation equals concatenating the filtered pieces), which makes it order-preserving |
| Weather.RecordUnknownCity | app/src/main/java/com/example/myapplication/WeatherViewModel.kt:80-86 | an unknown city adds one "City not found" card at the head and keeps every older card in order, including cards for the same city |
| Weather.StartLoading | app/src/main/java/com/example/myapplication/WeatherViewModel.kt:88-90 | a known city puts a loading card first, followed by exactly the old list with the city's cards filtered out: no other card matches the city, and every card for another city is kept, with its multiplicity, in order |
| Weather.Complete | app/src/main/java/com/example/myapplication/WeatherViewModel.kt:92-110 | the result card comes first and is not loading; its error is null on success, with the reading and the code's label, and "Error: " plus the message on failure; the rest is exactly the old list with the city's cards filtered out, so no other card matches the city and the other cards keep their order and multiplicity |
| Weather.FetchWeather | app/src/main/java/com/example/myapplication/WeatherViewModel.kt:78-112 | an unknown city publishes one state: a not-loading `City not found` card for that city in front of the unchanged list; a known city publishes a loading state and then a completed state, each holding exactly one card for the city, at the head, followed by the other cities' cards in their old order (the list with that city filtered out); the completed card has no error exactly when the fetch succeeded |
| Weather.KnownFetchKeepsCitiesDistinct | app/src/main/java/com/example/myapplication/WeatherViewModel.kt:88-109 | if no two cards share a city (ignoring case), no state published by a known-city fetch has two such cards |
| Weather.UnknownCityKeepsDuplicates | app/src/main/java/com/example/myapplication/WeatherViewModel.kt:80-86 | searching an unknown city twice leaves two identical error cards on top of the old list |
| Weather.Search | app/src/main/java/com/example/myapplication/WeatherActivity.kt:61-65 | blank input publishes nothing; otherwise the new head card is for the trimmed, non-empty input, and below it stay the old cards: all of them when the city is unknown (one state), those for every other city, in order, when it is known (both states) |
| Weather.Initial | app/src/main/java/com/example/myapplication/WeatherViewModel.kt:114-116 | the list starts empty; construction runs a fetch for "London" at once, whose first state has a "London" card at the head and whose last state is exactly one "London" card (loading, result or not-found), for any case tables |
| Weather.InitialShowsLondon | app/src/main/java/com/example/myapplication/WeatherViewModel.kt:114-116 | the initial fetch is for "London", which is found: one loading London card, then one finished London card whose error is null exactly when the fetch succeeded |

## Left out

- Compose rendering, navigation, intents, toasts and animations are UI with
  no stated logic. This covers `MainActivity.kt`, `SkillActivity.kt` with
  its Float thresholds, the weather cards, and `ContactsScreen` and
  `ContactItem`.
- The Retrofit and Gson call and the response mapping are network I/O in a
  foreign library. The call's result is the `FetchOutcome` parameter: a
  decoded reading and weather code, or an exception message that may be
  null.
- Temperature, humidity, wind speed and the coordinates are carried as
  `real` and `int` with no arithmetic. The only operation on them is the
  `== 0.0` sentinel test, which is exact for these literals.
- The internals of `Patterns.EMAIL_ADDRESS`, Kotlin's Unicode
  `isWhitespace`, `isDigit` and case tables are foreign code. They are the
  fields of `Platform.Library`.
- `(0..1000000).random()` is foreign randomness. The draw is a parameter of
  type `IdDraw`, bounded to that range.
- The coroutines in `ContactViewModel` and the dialog are treated as
  immediate, atomic calls. This covers the fire-and-forget writes and the
  `viewModelScope` launches. Interleaved `fetchWeather` calls are not
  modelled. `Complete` does filter whatever list it is given, just as the
  second update in the source does.
- `ContactViewModel.deleteContact` runs the non-suspending
  `ContactDAO.deleteContact` inside `viewModelScope.launch`, which is the
  main thread. The database is built without `allowMainThreadQueries()`
  (Database.kt:27-31), so Room refuses the call with an
  `IllegalStateException` and the delete button removes nothing. The
  model shows the DAO's delete as the direct operation it would be off
  the main thread; the threading check is Android runtime behaviour.
- After a failed insert, the model leaves the table unchanged and says
  nothing more. What the uncaught exception then does to the process is
  outside the model.
- `getAllContacts` returns a Flow that re-emits on every change. The model
  gives one snapshot.
- Ids are unbounded integers. The model does not cover Kotlin's 32-bit
  `Int`, SQLite's 64-bit rowid limit, or the SQLITE_FULL error at the top
  of the AUTOINCREMENT range.
- Strings are modelled as sequences of Unicode scalar values. Kotlin's
  `length`, `isBlank`, `all { isDigit() }`, `trim()` and `equalsIgnoreCase`
  work on UTF-16 code units. The library functions in `Platform.Library`
  stand for those per-code-unit tests on text within the Basic
  Multilingual Plane. Characters outside it, which Kotlin sees as two
  surrogates (for example "𝟏", U+1D7CF, rejected as non-digits), and lone
  surrogates are not modelled.
- `updateContact` has no caller in the app. It is modelled but no UI path
  uses it.
- The `ContactDatabase` singleton and the `lateinit` handle in
  `MyApplication` are lifecycle plumbing.
- Weather.InitialShowsLondon: assumes `String.lowercase()` behaves as
  documented on ASCII text (`AsciiLowercase`), so that "London" is found
  and the three states are empty, loading, finished. Without that fact,
  `Weather.Initial` still promises the empty start and a single "London"
  card at the end, but not whether it is a result or a "City not found"
  card.
- Weather.LookupIgnoresCaseButNotSpaces: assumes the same
  `AsciiLowercase` fact.

## Findings

| source | as written | input that shows it | evidently intended | confidence | as-written member | corrected member |
|---|---|---|---|---|---|---|
| app/src/main/java/com/example/myapplication/ContactActivity.kt:353-363 | the new contact's id is drawn from `0..1000000`, and `onContactSaved` ("Contact saved successfully") runs as soon as the insert is issued | a table holding contact 42, the form {Ann, 12345, ann@x.com, ""}, and a draw of 42: the insert aborts on the primary key, the table is unchanged, and success is shown | every accepted form is stored, as the message says; the key is declared `autoGenerate = true`, so the table should assign the id | medium, not executed | ContactForm.RandomIdCollisionLosesContact | ContactForm.SubmitStoreAssigned |
