# Company autocomplete and credential checks, modelled in Dafny

This project models two pieces of the LaunchPad web application.

**Company autocomplete** (`src/utils/seedCompanies.js`):

- **Seeding.** `seedCompanies` fills the Firestore `companies` collection from the bundled dataset. It does this only when the collection is empty, and it tolerates individual writes that fail.
- **Search.** `searchCompanies` turns a partly typed company name into ranked candidates:
  - a prefix-range query on the collection comes first;
  - a substring scan of the bundled dataset (`searchCompaniesLocally`) is the fallback when the query has no hits or throws;
  - `sortResults` ranks the answer: exact key first, then keys that start with the query, then by name.

**Credential checks** (`src/utils/auth.js`): `isUniversityEmail`, `isStrongPassword` and the two guards at the head of `registerUser`.

Modules:

- `Strings` holds the string operations the source uses: `toLowerCase` (ASCII only), `startsWith`, `endsWith`, `includes`, and a code-point stand-in for `localeCompare`.
- `CompanyStore` holds the company record and the collection, a class whose `docs` field maps document ids to records.
  - `Query` is `getDocs` with optional inclusive bounds on `normalizedName`.
  - `SetDoc` is `setDoc`.
  - `Query` takes an optional error message. When one is given, the call throws it instead of answering.
  - `SetDoc` takes a flag. When it is set, the write throws and the collection is unchanged.
- `Ranking` holds the comparator passed to `sort` as a function, and the in-place sort as a method on an array that also reports, as a ghost permutation, where each record came from.
- `CompanySearch` holds the range query, the local filter, `searchCompaniesLocally` and `searchCompanies`.
- `Seeding` holds `seedCompanies`, proved against the functions `Written` (the collection after the writes) and `Successes` (the number of writes that succeed).
- `Auth` holds the credential predicates.

Three properties of the code the model keeps:

- **The range bound is inclusive.** The upper bound `<= q + U+F8FF` is inclusive, not half-open. The key that is exactly `q + U+F8FF` is therefore selected (`CompanySearch.PrefixRange`).
- **Keys repeat in the data.** `normalizedName` is not unique in the bundled data (`intel`, `paypal` and `bytedance` appear twice). It is also not always the lower-cased name ("HP Inc." is stored under `hp`).
  - Seeding counts writes, not documents, so `count` can exceed the size of the seeded collection (`Seeding.DuplicateKeyInflatesCount`).
  - With distinct keys, count and size agree (`Seeding.WrittenSizeDistinctKeys`).
- **The comparator is not a consistent total order.** For two records that both equal the query, it returns -1 in both directions (`Ranking.ExactPairInconsistent`). It even answers -1 when such a record is compared with itself. The relative order of two exact matches is therefore left open (`CompanySearch.ExactPairOrderOpen`); every other pair the comparator accepts in its input order, ties included, keeps that order (`Ranking.SortResults`).

## Model

| member | source | states |
|---|---|---|
| `Strings.Lower` | src/utils/seedCompanies.js:82 | lower-casing keeps the length and maps each ASCII capital to its small letter, leaving every other character as it is |
| `Strings.LowerIdempotent` | src/utils/auth.js:25 | lower-casing an already lower-cased string changes nothing |
| `Strings.IsPrefix` | src/utils/seedCompanies.js:132-133 | `startsWith` holds exactly when the string is at least as long and agrees with the prefix at each of its positions |
| `Strings.IsSuffix` | src/utils/auth.js:43 | `endsWith` holds exactly when the string is at least as long and its last positions agree with the suffix |
| `Strings.Contains` | src/utils/seedCompanies.js:151-153 | `includes` holds exactly when the substring occurs at some offset |
| `Strings.LexCompare` | src/utils/seedCompanies.js:136 | the name comparison returns -1, 0 or 1; the empty string ties only with itself; differing first characters decide by code point |
| `Strings.LexCompareZeroIffEqual` | src/utils/seedCompanies.js:136 | the name comparison ties exactly equal names |
| `Strings.LexCompareTransitive` | src/utils/seedCompanies.js:136 | the stand-in for `localeCompare` is a transitive order |
| `Strings.LexCompareAntisymmetric` | src/utils/seedCompanies.js:136 | swapping the operands of the name comparison negates its result |
| `CompanyStore.EnumerationSize` | src/utils/seedCompanies.js:29-30 | a snapshot has one entry per selected document, so `size` and `empty` describe the documents |
| `CompanyStore.Store.Query` | src/utils/seedCompanies.js:87-93 | a failing call yields its error; otherwise the answer lists every document whose `normalizedName` lies within the inclusive bounds exactly once, with its data |
| `CompanyStore.Store.SetDoc` | src/utils/seedCompanies.js:43-51 | a successful write overwrites the document with that id; a failed one changes nothing |
| `Ranking.Compare` | src/utils/seedCompanies.js:126-137 | a record of a lower relevance class (exact key, key starting with the query, other) comes first; two exact matches each get -1; within the prefix class and within the other class the name comparison decides |
| `Ranking.PrecedesIsTierOrder` | src/utils/seedCompanies.js:126-137 | `a` may precede `b` exactly when its relevance class (exact, prefix, other) is lower, or the class is the same and either it is the exact class or the names are in order |
| `Ranking.ExactPairInconsistent` | src/utils/seedCompanies.js:128-129 | for two exact matches the comparator returns -1 both ways |
| `Ranking.CompareAntisymmetric` | src/utils/seedCompanies.js:127-136 | for every other pair, reversing the arguments negates the comparator |
| `Ranking.PrecedesTotal` | src/utils/seedCompanies.js:127-136 | of any two records, one may precede the other |
| `Ranking.PrecedesTransitive` | src/utils/seedCompanies.js:127-136 | the ordering the comparator induces is transitive |
| `Ranking.RankedOrder` | src/utils/seedCompanies.js:126-137 | in a ranked answer exact keys come before the rest, non-exact prefix keys come before non-prefix keys, and names ascend within the prefix class and within the other class |
| `Ranking.RankingKeepsAcceptedPairs` | src/utils/seedCompanies.js:126 | in a ranking of an input, two records the comparator accepts in their input order (in particular two it ties) stay in that order, unless both are exact matches |
| `Ranking.SortResults` | src/utils/seedCompanies.js:124-138 | sorting in place leaves a ranked permutation of the array, given as a map from final to input positions, and reverses two records only when the comparator refuses their input order or both are exact matches, so ties keep input order |
| `CompanySearch.PrefixRange` | src/utils/seedCompanies.js:87-91 | a key lies in `[q, q + U+F8FF]` iff it is `q` followed by nothing, by a string starting below U+F8FF, or by U+F8FF alone |
| `CompanySearch.RangeOnlyPrefixes` | src/utils/seedCompanies.js:86-91 | every key the range selects starts with the query |
| `CompanySearch.RangeExamples` | src/utils/seedCompanies.js:87-91 | the query `goo` selects `google` and not `apple` |
| `CompanySearch.Matches` | src/utils/seedCompanies.js:150-154 | every key the range query can select matches, the empty query matches everything, and without an industry only the key and the lower-cased name are searched |
| `CompanySearch.LocalMatches` | src/utils/seedCompanies.js:149-154 | the filter keeps each matching entry as often as the dataset holds it and drops every non-matching one |
| `CompanySearch.LocalMatchesInOrder` | src/utils/seedCompanies.js:149-154 | the filter's result is the dataset read at strictly increasing positions, and those are exactly the positions of the matching entries, so kept entries stay in dataset order |
| `CompanySearch.LocalMatchExamples` | src/utils/seedCompanies.js:151-153 | `bank` matches a record by its name and another by its industry alone; without the industry it does not |
| `CompanySearch.RangeAnswerContents` | src/utils/seedCompanies.js:93-107 | a remote answer has one record per selected document, each a stored record whose key starts with the query |
| `CompanySearch.SearchLocally` | src/utils/seedCompanies.js:145-167 | the local search returns the filtered dataset in ranked order, with tied records in dataset order and the order of two exact matches left open |
| `CompanySearch.Search` | src/utils/seedCompanies.js:77-119 | an absent query or one shorter than 2 gives `[]`; a range query that succeeds with hits gives exactly those records in ranked order, ties kept in answer order and the order of two exact matches left open; an empty or failing query gives the ranked local matches of the lower-cased query; no error escapes |
| `CompanySearch.LocalSearchKeepsTiedOrder` | src/utils/seedCompanies.js:126-165 | the two `Intel` entries of the dataset tie for `int`, so the local search returns them in dataset order |
| `CompanySearch.ExactPairOrderOpen` | src/utils/seedCompanies.js:126-129 | for `intel` both `Intel` entries are exact matches, and either order of the two is a ranking |
| `Seeding.OrEmpty` | src/utils/seedCompanies.js:46-48 | the empty-string fallback keeps a present field and turns a missing one into `''` |
| `Seeding.StoredForm` | src/utils/seedCompanies.js:43-51 | the stored document keeps name and key, keeps present optional fields, and fills missing ones with `''` |
| `Seeding.Written` | src/utils/seedCompanies.js:40-57 | the writes remove no document and add at most one per successful write, so the seeded collection has at most `count` documents |
| `Seeding.Successes` | src/utils/seedCompanies.js:40-61 | `count` is the number of positions whose write does not throw, at most the number of entries |
| `Seeding.WrittenKeys` | src/utils/seedCompanies.js:40-57 | after the writes, a key is present iff it was present before or some write to it succeeded |
| `Seeding.WrittenValue` | src/utils/seedCompanies.js:40-57 | each new document holds the stored form of the last successful write to its id, so its `normalizedName` equals its id |
| `Seeding.WrittenSizeDistinctKeys` | src/utils/seedCompanies.js:40-61 | with distinct keys the seeded collection has exactly `count` documents |
| `Seeding.AllWritesSucceed` | src/utils/seedCompanies.js:53-61 | when no write throws, `count` is the dataset size |
| `Seeding.ReseedFindsDocuments` | src/utils/seedCompanies.js:29-36 | a seed that wrote anything leaves a non-empty collection, so the next seed writes nothing |
| `Seeding.DuplicateKeyInflatesCount` | src/utils/seedCompanies.js:40-61 | two entries with one key give `count` 2 and a single document |
| `Seeding.Seed` | src/utils/seedCompanies.js:14-70 | a failing listing gives `success:false, count:0` and no writes; a non-empty collection is left unchanged with `count` its size; an empty one receives every dataset entry in order under its key, skipping failed writes, with `count` the number of successes |
| `Auth.EndsWithAny` | src/utils/auth.js:43 | `some(endsWith)` holds iff one of the domains is a suffix |
| `Auth.IsUniversityEmail` | src/utils/auth.js:23-44 | an email is accepted iff, lower-cased, it is the test account or ends with one of the ten domains |
| `Auth.UniversityEmailCaseInsensitive` | src/utils/auth.js:25-43 | lower-casing the email first does not change the verdict |
| `Auth.UniversityEmailExamples` | src/utils/auth.js:30-43 | `Alice@U.NUS.EDU` is accepted, `bob@gmail.com` is not |
| `Auth.IsStrongPassword` | src/utils/auth.js:52-63 | the test account is accepted with `123456`; otherwise a password is accepted iff it has at least 8 characters and contains an upper-case letter, a lower-case letter and a digit |
| `Auth.TestPasswordIsExact` | src/utils/auth.js:54-62 | the exception is an exact match on the password: `123456A` is refused for the test account |
| `Auth.TestEmailIgnoresCase` | src/utils/auth.js:54-56 | the exception matches the email whatever its case: `TestUser@Test.COM` with `123456` is accepted |
| `Auth.ShortPasswordRejected` | src/utils/auth.js:54-62 | a password under 8 characters is refused unless the exception applies |
| `Auth.RegisterGuards` | src/utils/auth.js:71-78 | a non-university email fails first; a university email with a weak password fails second; only both checks passing reach account creation |
| `Auth.EmailCheckedFirst` | src/utils/auth.js:72-74 | a refused email gives the same outcome whatever the password |

## Left out

- Timestamps: `createdAt` and `updatedAt` are not modelled (`new Date()` is a clock).
- Logging: `console` calls are not modelled.
- Concurrency: the Firestore calls are modelled as sequential calls.
- Messages: the human-readable seed message is a datatype holding the number or the error text, not the formatted string.
- Lower-casing: `toLowerCase` is modelled on ASCII letters only. Full Unicode case mapping, which can change a string's length, is not modelled.
- Name order: `localeCompare` is modelled as plain code-point order.
- String encoding: strings are sequences of Unicode scalar values. Firestore orders strings by their UTF-8 bytes, which is the same as code-point order, so `CompanyStore.InBounds` and `CompanySearch.PrefixRange` order keys as Firestore does. JavaScript's UTF-16 code units are not modelled: for characters outside the Basic Multilingual Plane, `length` (the `queryText.length < 2` and `password.length >= 8` tests) counts two units where the model counts one character.
- Snapshot order: the order of a query answer is left unspecified.
- `Ranking.SortResults`, `CompanySearch.SearchLocally` and `CompanySearch.Search`: when an answer holds a record whose key equals the query, the comparator is not consistent (it answers -1 for that record against itself and against another exact match), and ECMAScript then leaves the sort order implementation-defined. The contracts leave the relative order of two exact matches open, and nowhere rely on the outcome the model's own insertion sort happens to give them. Without such a record the comparator is consistent, and the stable ranked order the model proves is the only one a conforming engine can return.
- `CompanySearch.Search`: "the short-query branch consults neither the store nor the dataset" is stated only through the result: it is `[]` whatever the collection and the dataset hold.
- The literal contents of `src/utils/companiesData.js`: the dataset is a parameter. Two small fixtures stand in for its duplicate-key entries.
- The rest of `src/utils/auth.js` is outside the model: `loginUser`, `logoutUser`, `resetPassword`, `updateUserProfile`, `changePassword`, `onAuthStateChange`, `saveUserProfile`, `getUserProfile`, `loadUserProfile`, `sendEmailVerification`, and the account creation and verification email after the guards in `registerUser`. These are thin calls into the Firebase SDK, whose code is not part of this model.
- `src/firebase.js`, `src/main.js` and `src/router/index.js`: SDK set-up, application bootstrap and a route table, with no logic to state.
