# Frontix utilities in Dafny

A model of the logic at the heart of the Frontix TypeScript utility library,
with proofs of what each helper promises. It covers three groups of helpers:

- **the deep-object helpers.** `isEqual`, `deepClone` and `merge` work over a
  heap of objects addressed by id (`Heap.Heap`, a `seq<Node>`). A reference
  `Ref(id)` is an object, so identity is id equality. Each node is a Date,
  RegExp, array, Map, Set or plain object. Every kind except arrays also
  carries ordinary properties in enumeration order.
  - `isEqual` is a pure recursive function. It is defined on acyclic heaps: a
    rank puts each object below the objects that hold it.
  - `deepClone` is an imperative recursive method over a shared `Arena`
    (the heap) and a `Visited` object (the `visited` WeakMap, a
    `map<nat, nat>` from source id to copy id). It allocates a fresh node,
    records it in `visited` and only then fills it, key by key, in loops.
  - `merge` is an imperative method that writes `target[key]` in place. It
    is proved against the recursive function `Merging.MergeAll`. Recursion
    spends a depth budget; running out of it (`StackExceeded`) stands for the
    `RangeError` that unbounded recursion raises.
- **the string helpers.** `camelCase`, `kebabCase`, `snakeCase`,
  `pascalCase`, `capitalize`, `slugify` and `truncate` are functions on
  `seq<char>`. They take the JavaScript value they are called with
  (`JsValues.Value`), so the "empty or not a string" guard is modelled too.
- **the validators and formatters.** These are `validatePhone`,
  `validateEmail`, `timeAgo`, `safeValue` and `toDropdown`.

Every regular expression of the source is written out as a character-class
predicate or a small recursive function. Each module is one source file:

| module | file | source |
|---|---|---|
| `Ascii`, `Numerals`, `JsValues`, `Text` | base.dfy | the JavaScript built-ins the helpers use |
| `Heap` | heap.dfy | object model shared by the deep helpers |
| `DeepEquality` | is_equal.dfy | src/deep/isEqual.ts |
| `Cloning` | clone.dfy | src/deep/clone.ts |
| `CloneEquality` | clone_equality.dfy | how the two above relate |
| `Merging` | merge.dfy | src/deep/merge.ts |
| `CaseConversion` | case_conversion.dfy | src/string/caseConversion.ts |
| `Capitalization` | capitalize.dfy | src/string/capitalize.ts |
| `Slug` | slugify.dfy | src/string/slugify.ts |
| `Truncation` | truncate.dfy | src/string/truncate.ts |
| `TimeAgo` | time_ago.dfy | src/date/timeAgo.ts |
| `PhoneValidation` | validate_phone.dfy | src/validation/validatePhone.ts |
| `EmailValidation` | validate_email.dfy | src/validation/validateEmail.ts |
| `SafeValues` | safe_value.dfy | src/validation/safeValue.ts |
| `Dropdown` | to_dropdown.dfy | src/array/toDropdown.ts |

## Model

| member | source | states |
|---|---|---|
| Ascii.Lower | src/string/caseConversion.ts:73 | `toLowerCase` keeps the length and maps each character through the ASCII lower-casing |
| Ascii.ToUpper | src/string/capitalize.ts:33 | lower-case letters become upper-case and everything else is left alone; the result is never lower-case |
| Ascii.CaseInsensitive | src/string/capitalize.ts:33 | lower-casing after upper-casing is plain lower-casing; neither changes whether a character is whitespace |
| Ascii.TrimStart | src/validation/validateEmail.ts:29 | the result is a suffix of the input that does not start with whitespace, and everything dropped is whitespace |
| Ascii.TrimEnd | src/validation/validateEmail.ts:29 | the result is a prefix that does not end with whitespace, and everything dropped is whitespace |
| Ascii.TrimPadded | src/validation/validateEmail.ts:29 | trimming ignores any whitespace padding on either side |
| Ascii.TrimKeepsClass | src/string/slugify.ts:25 | trimming keeps only characters of the input |
| Numerals.NatToString | src/date/timeAgo.ts:38 | the decimal numeral of a count is non-empty, all digits, and has no leading zero |
| Numerals.ParseNatToString | src/deep/isEqual.ts:81 | reading an array index key back gives the index |
| Numerals.NatToStringInjective | src/deep/isEqual.ts:81 | distinct indices have distinct keys |
| JsValues.RejectsAsTextExactly | src/string/caseConversion.ts:20-22 | `!str \|\| typeof str !== 'string'` passes exactly the non-empty strings |
| Text.SplitRuns | src/string/caseConversion.ts:34 | `split(/[\s_-]+/)` gives at least one part, and no part holds a separator |
| Text.SplitRunsConcat | src/string/caseConversion.ts:34 | joining the parts of `split(/[\s_-]+/)` gives the input with every separator removed |
| Text.DropWhileFilter | src/string/caseConversion.ts:34 | dropping a leading separator run does not change what is left once the separators are removed |
| Text.SplitRunsInteriorNonEmpty | src/string/caseConversion.ts:34 | on input that does not start with a separator, only the last part can be empty |
| Text.SplitKeepingRunsConcat | src/string/capitalize.ts:24 | `split(/(\s+)/)` with the captured runs loses nothing: joining the pieces gives the input back |
| Text.SplitKeepingRunsPieces | src/string/capitalize.ts:24 | each piece is either free of whitespace or a non-empty whitespace run |
| Text.SplitEach | src/validation/validatePhone.ts:81 | `split` on a class gives at least one part, none holding a class character |
| Text.SplitEachConcat | src/validation/validatePhone.ts:81 | joining the parts gives the input without its class characters, and there is one more part than class characters |
| Text.CollapseRunsChars | src/string/caseConversion.ts:72 | replacing runs in a class by a replacement leaves only kept characters and replacement characters |
| Heap.PropLookup | src/deep/merge.ts:37 | `obj[key]` is undefined for a key the object does not have, and otherwise the value of an entry stored under that key |
| Heap.PropWriteLookup | src/deep/merge.ts:51 | after `obj[key] = v`, reading `key` gives `v` and every other key reads as before |
| Heap.PropWriteAppends | src/deep/clone.ts:77 | writing a new key puts it last in enumeration order |
| Heap.PropWriteSameKeys | src/deep/merge.ts:48 | writing an existing key keeps the key order unchanged |
| Heap.PropWriteDistinct | src/deep/merge.ts:51 | a property write never duplicates a key |
| Heap.PropWriteValues | src/deep/merge.ts:51 | after a write, every stored value is the new value or one that was stored before |
| Heap.MapGetAt | src/deep/isEqual.ts:47 | in a Map without repeated keys, `has` and `get` find each entry's own value |
| Heap.MapSet | src/deep/clone.ts:56 | `Map.set` with a new key appends the entry |
| Heap.SetAdd | src/deep/clone.ts:66 | `Set.add` appends a new member and leaves the Set alone when the member is already in it |
| Heap.OwnKeysDistinct | src/deep/isEqual.ts:81 | `Object.keys` has no repeats on a well-formed object |
| Heap.ContainedBack | src/deep/isEqual.ts:84-90 | two repeat-free key lists of the same length, one inside the other, contain each other |
| DeepEquality.IsEqual | src/deep/isEqual.ts:17-31 | the same value is equal to itself; null and undefined equal only themselves; different `typeof` is never equal; primitives are equal exactly when identical |
| DeepEquality.DatesAndRegExps | src/deep/isEqual.ts:34-41 | two Dates are equal iff their times match; two RegExps are equal iff source and flags match |
| DeepEquality.MapBranch | src/deep/isEqual.ts:44-52 | two distinct Maps are equal iff their sizes match and each key of the first is in the second with an equal value |
| DeepEquality.SetBranch | src/deep/isEqual.ts:55-68 | two distinct Sets are equal iff their sizes match and each member of the first equals some member of the second |
| DeepEquality.ArrayBranch | src/deep/isEqual.ts:71-77 | two distinct arrays are equal iff their lengths match and they are equal index by index |
| DeepEquality.ArraysOfLengths | src/deep/isEqual.ts:72 | arrays of different lengths are never equal; two empty arrays are |
| DeepEquality.KeysBranch | src/deep/isEqual.ts:80-92 | any other pair of distinct objects is equal iff `Object.keys` has the same length and each key of the first is a key of the second with an equal value |
| DeepEquality.NotTransitive | src/deep/isEqual.ts:80-92 | a Date equals `{}` and `{}` equals another Date, yet the two Dates differ |
| DeepEquality.ArrayMatchesIndexObject | src/deep/isEqual.ts:80-92 | `[1]` and `{"0": 1}` compare equal, in both orders |
| DeepEquality.SetCheckOneSided | src/deep/isEqual.ts:57-66 | `{[], []}` equals `{[], [1]}` but not the other way round |
| DeepEquality.SetsForward | src/deep/isEqual.ts:57-66 | equal sizes, and a choice for each member of the first Set of a deeply equal member of the second, make the Sets equal |
| DeepEquality.SetsBackward | src/deep/isEqual.ts:57-66 | different sizes, or any one member of the first Set equal to no member of the second, make the Sets unequal |
| DeepEquality.MapKeysByIdentity | src/deep/isEqual.ts:47 | Map keys are looked up by identity: Maps keyed by two distinct objects differ |
| DeepEquality.Symmetric | src/deep/isEqual.ts:17-95 | on heaps without Sets, equality is symmetric |
| DeepEquality.ArraysBackward | src/deep/isEqual.ts:71-77 | equal arrays are equal index by index in the other direction |
| DeepEquality.MapsBackward | src/deep/isEqual.ts:44-52 | every key of the second of two equal Maps is a key of the first, with the values equal back |
| DeepEquality.KeysBackward | src/deep/isEqual.ts:80-92 | the second of two equal objects has the same key count, and each of its keys is in the first with the values equal back |
| DeepEquality.MapEntryBack | src/deep/isEqual.ts:47 | an entry of the second Map whose key the first matched equals the first's entry back |
| DeepEquality.KeyBack | src/deep/isEqual.ts:87 | a matched key's values are equal in the other direction |
| Cloning.DeepClone | src/deep/clone.ts:16-82 | the source nodes are left as they were; a primitive comes back itself; an object comes back as a fresh node, every reached source object has a copy holding the translated contents, and every node added is one of these copies |
| Cloning.DeepCloneWith | src/deep/clone.ts:16-25 | with a given `visited`, the result is the copy under the final table and the invariant is kept: every visited object is copied exactly once, entries only grow, and copies never alias source objects |
| Cloning.Fill | src/deep/clone.ts:27-81 | once the fresh copy is recorded, filling it completes it and changes no other copy |
| Cloning.FillArray | src/deep/clone.ts:35-42 | the array loop fills element i with the clone of element i |
| Cloning.CopyElement | src/deep/clone.ts:39 | one step of the array loop extends the filled prefix by one |
| Cloning.FillMap | src/deep/clone.ts:52-59 | `forEach` sets the clone of each key to the clone of its value, in order |
| Cloning.CopyEntry | src/deep/clone.ts:56 | one `Map.set` step extends the filled prefix by one entry |
| Cloning.CloneEntry | src/deep/clone.ts:56 | the key and then the value are cloned with the shared `visited` |
| Cloning.FillSet | src/deep/clone.ts:62-69 | `forEach` adds the clone of each member, in order |
| Cloning.CopyMember | src/deep/clone.ts:66 | one `Set.add` step extends the filled prefix by one member |
| Cloning.FillPlain | src/deep/clone.ts:72-79 | the `for…in` loop writes the clone of each own key's value under that key |
| Cloning.CopyProperty | src/deep/clone.ts:77 | one key write extends the filled prefix by one property |
| Cloning.AllocKeepsInv | src/deep/clone.ts:30 | recording a fresh copy in `visited` keeps the invariant, with the copy pending |
| Cloning.FinishKeepsInv | src/deep/clone.ts:41 | a fully translated copy is no longer pending |
| Cloning.ImageInjective | src/deep/clone.ts:23-25 | distinct values have distinct copies, so Map keys and Set members stay distinct |
| Cloning.ImageProps | src/deep/clone.ts:77 | copied properties keep their keys and order, with each value replaced by its copy |
| Cloning.CopyContents | src/deep/clone.ts:28-69 | a Date copy keeps the time; a RegExp copy keeps source and flags; array, Map and Set copies hold the copies of the elements, entries or members, in order and with the same length |
| Cloning.CopyReadsBack | src/deep/clone.ts:72-79 | a plain-object or array copy has exactly the source's own keys, and each key reads as the copy of the source's value |
| Cloning.CopyKeepsReferences | src/deep/clone.ts:23-25 | where the source holds object `b`, the copy holds `b`'s copy, so a self-reference points at the clone and shared objects stay shared |
| Cloning.CopiesAreFresh | src/deep/clone.ts:29 | every copy is a new object, distinct from every source object |
| Cloning.TranslateChild | src/deep/clone.ts:35-79 | every value a copy holds is the copy of a value its source holds |
| Cloning.CopyRank | src/deep/clone.ts:16-82 | the copy adds no cycle: ranking each copy like its source ranks the new arena, and the source objects keep their ranks |
| CloneEquality.CloneIsDeeplyEqual | src/deep/clone.ts:16-82 | with the arena and table `deepClone` leaves, on an acyclic source whose Maps are keyed by primitives, the new arena is acyclic and `isEqual(v, deepClone(v))` holds |
| CloneEquality.CloneIsEqual | src/deep/isEqual.ts:17-31 | a source value is deeply equal to its copy |
| CloneEquality.CopyIsEqual | src/deep/isEqual.ts:34-94 | a source object is deeply equal to its copy, whatever its kind |
| CloneEquality.CopyArrayEqual | src/deep/isEqual.ts:71-77 | an array and its copy are equal index by index |
| CloneEquality.CopySetEqual | src/deep/isEqual.ts:55-68 | a Set and its copy are equal, each member matching its own copy |
| CloneEquality.CopyMapEqual | src/deep/isEqual.ts:44-52 | a Map keyed by primitives and its copy are equal: each key is in the copy, holding the copy of its value |
| CloneEquality.PrimitiveKeysKept | src/deep/clone.ts:55-57 | the copy of a Map keyed by primitives has the same keys, still distinct, each with the copy of its value |
| CloneEquality.CopyPlainEqual | src/deep/isEqual.ts:80-92 | a plain object and its copy have the same keys with deeply equal values |
| CloneEquality.ObjectKeyedMapDiffersFromCopy | src/deep/clone.ts:56 | a Map keyed by an object is not deeply equal to its clone, because the clone is keyed by the key's copy |
| Merging.Merge | src/deep/merge.ts:17-58 | the in-place merge leaves exactly the heap `MergeAll` describes, or reports the stack overflow, and returns the target reference |
| Merging.MergeSource | src/deep/merge.ts:34-54 | the `for…in` loop over one source leaves the heap that `SourceLoop` describes |
| Merging.MergeKey | src/deep/merge.ts:35-52 | one key of the loop leaves the heap that `KeyStep` describes |
| Merging.MergeAllShape | src/deep/merge.ts:17-58 | a merge allocates nothing and never changes the kind of a node |
| Merging.MergeAllWellFormed | src/deep/merge.ts:17-58 | a merge of a well-formed heap leaves a well-formed heap: no dangling references and no repeated keys |
| Merging.KeyStepWellFormed | src/deep/merge.ts:35-52 | one key step keeps the heap well-formed |
| Merging.AssignKeepsWellFormed | src/deep/merge.ts:51 | writing an in-heap value under a key keeps the heap well-formed |
| Merging.NoSourcesNoChange | src/deep/merge.ts:21-23 | with no sources the target is unchanged |
| Merging.LeadingNonObjectNoChange | src/deep/merge.ts:25-32 | a falsy or non-object first source returns the target unchanged, whatever follows it |
| Merging.MergeStopsAtNonObject | src/deep/merge.ts:25-32 | a non-object source and every source after it are ignored |
| Merging.RecordKeepsReference | src/deep/merge.ts:39-48 | where both values are non-array objects (a Date or Map included), the key keeps pointing at the target's own object |
| Merging.LeafIsAssigned | src/deep/merge.ts:49-52 | otherwise the key is set to the source value itself, arrays by reference; other keys and all other objects are untouched |
| Merging.WriteKeyGet | src/deep/merge.ts:48-51 | the write sets its key and leaves every other key |
| Merging.ShallowMerge | src/deep/merge.ts:34-57 | merging one source that holds no nested records writes each of its own keys into the target |
| Merging.WriteAllGet | src/deep/merge.ts:34-54 | after writing a source's keys, a key reads from the source if the source owns it and from the target otherwise |
| Merging.LaterSourceWins | src/deep/merge.ts:57 | sources apply left to right: on a key both own, the later source's value is the result |
| Merging.NonObjectSourceSkipped | src/deep/merge.ts:25-32 | the corrected merge drops a non-object source and goes on with the rest |
| Merging.SkippingAgrees | src/deep/merge.ts:17-58 | when every source is an object, the corrected merge is the merge as written |
| Merging.NullSourceDropsLaterSources | src/deep/merge.ts:25-32 | a `null` source makes the merge as written drop a later object source, while the corrected merge applies it |
| Merging.NullThenShallow | src/deep/merge.ts:25-32 | the corrected merge applies a source that follows `null` exactly as if the `null` source were absent |
| CaseConversion.CamelCase | src/string/caseConversion.ts:19-22 | empty or non-string input gives "" |
| CaseConversion.CamelCaseFastPath | src/string/caseConversion.ts:29-31 | a lower-case letter followed only by letters comes back unchanged |
| CaseConversion.CamelCaseNoSeparators | src/string/caseConversion.ts:25-49 | the output holds no whitespace, `_` or `-` |
| CaseConversion.CamelCaseLetters | src/string/caseConversion.ts:34-49 | up to letter case, the output is the parts joined, and so the input with every whitespace, `_` and `-` removed: no other character is added or lost |
| CaseConversion.CamelCaseSegments | src/string/caseConversion.ts:40-49 | the first part is lower-cased; each later non-empty part starts where the earlier parts end, with its first character upper-cased |
| CaseConversion.CamelSegment | src/string/caseConversion.ts:41-48 | a part keeps its length and letters, gets an upper-case first character, and either keeps or lower-cases each later character (keeps them all on a camel word) |
| CaseConversion.PascalIsCapitalisedCamel | src/string/caseConversion.ts:113-121 | `pascalCase` is `camelCase` with the first character upper-cased |
| CaseConversion.KebabCase | src/string/caseConversion.ts:65-68 | empty or non-string input gives "" |
| CaseConversion.SnakeCase | src/string/caseConversion.ts:89-92 | empty or non-string input gives "" |
| CaseConversion.KebabCaseShape | src/string/caseConversion.ts:70-73 | the output holds no whitespace, `_` or upper-case letter |
| CaseConversion.SnakeCaseShape | src/string/caseConversion.ts:94-97 | the output holds no whitespace, `-` or upper-case letter |
| CaseConversion.KebabCaseIdempotent | src/string/caseConversion.ts:65-74 | applying `kebabCase` to its own output changes nothing |
| CaseConversion.SnakeCaseIdempotent | src/string/caseConversion.ts:89-98 | applying `snakeCase` to its own output changes nothing |
| CaseConversion.DelimitIdempotent | src/string/caseConversion.ts:70-73 | the hump split, run replacement and lower-casing chain is idempotent for any delimiter outside the replaced class |
| Capitalization.Capitalize | src/string/capitalize.ts:17-19 | empty or non-string input gives "" |
| Capitalization.FirstLetterMode | src/string/capitalize.ts:41 | the default mode keeps the length, upper-cases the first character and lower-cases every other one |
| Capitalization.AllWordsPointwise | src/string/capitalize.ts:21-38 | `allWords` keeps the length, turns each `_` and `-` into a space, keeps each whitespace character in place and changes nothing else but letter case |
| Capitalization.AllWordsUpToCase | src/string/capitalize.ts:23-38 | the `allWords` output equals the separator-normalised input up to letter case |
| Capitalization.AllWordsTokens | src/string/capitalize.ts:24-37 | each piece of the split is a whitespace run kept as is, a word starting with a letter that becomes upper-first and lower-rest, or another word kept verbatim |
| Capitalization.JoinersToSpaces | src/string/capitalize.ts:23 | `replace(/[_-]/g, ' ')` turns each `_` and `-` into a space and keeps every other character |
| Capitalization.ConcatTokensUpToCase | src/string/capitalize.ts:25-38 | the mapped and joined pieces have the input's length and agree with it up to case |
| Slug.Slugify | src/string/slugify.ts:17-19 | empty or non-string input gives "" |
| Slug.EmptySeparatorAlnum | src/string/slugify.ts:22-28 | with an empty separator the output holds only `[a-z0-9]` |
| Slug.SlugChars | src/string/slugify.ts:34-51 | with a separator, every output character is in `[a-z0-9]`, a `-`, or a character of the separator |
| Slug.SlugHasNoSpaces | src/string/slugify.ts:45-47 | with a separator holding no whitespace, `'` or `.`, the output holds none of them either |
| Slug.SingleSeparatorClean | src/string/slugify.ts:49-51 | with a one-character separator, the output has no doubled separator and none at either end |
| Slug.BlankGivesEmpty | src/string/slugify.ts:36 | whitespace-only input gives "" for any separator |
| Slug.SeparatorOnlyGivesEmpty | src/string/slugify.ts:41-51 | input made only of `-`, `_` and whitespace gives "" with the default separator |
| Slug.QuotesAndPeriodsDeleted | src/string/slugify.ts:43 | in input of letters, digits, `'` and `.`, the quotes and periods are deleted rather than turned into separators: the result is the lower-cased input without them, so "v2.0" gives "v20" |
| Slug.LongSeparatorKeepsDoubles | src/string/slugify.ts:49 | with a two-character separator, a doubled separator survives the collapsing, because `ab+` only collapses repeats of its last character |
| Truncation.Truncate | src/string/truncate.ts:21 | empty or non-string input gives "" |
| Truncation.TruncateCases | src/string/truncate.ts:22-24 | a negative length or an input no longer than the length gives the input; otherwise the result is the first `length` characters followed by the suffix, of length `length + \|suffix\|` |
| Truncation.TruncateToZero | src/string/truncate.ts:24 | length 0 gives just the suffix |
| Truncation.TruncateKeepsPrefix | src/string/truncate.ts:22-24 | the result is the input or a prefix of it followed by the suffix |
| TimeAgo.CountsAreFloorDivisions | src/date/timeAgo.ts:21-27 | each chained `Math.floor` count is one floor division of the distance in milliseconds |
| TimeAgo.TimeAgoBands | src/date/timeAgo.ts:20-54 | under a minute gives "just now"; otherwise the band picks the unit (minutes below an hour, hours below a day, days below a week, weeks below 28 days, months below 360 days, else years) and the count is the distance over the unit |
| TimeAgo.JustNowExactly | src/date/timeAgo.ts:34-35 | "just now" appears exactly when the instants are under a minute apart, in either direction |
| TimeAgo.TimeAgoMirror | src/date/timeAgo.ts:29-31 | swapping the instants keeps the count and unit and switches "N units ago" to "in N units" |
| TimeAgo.SingularForOne | src/date/timeAgo.ts:37-53 | the unit word is the singular exactly for a count of 1; for every other count it is the singular with `s` added |
| TimeAgo.ZeroMonthsGap | src/date/timeAgo.ts:45-50 | 28 days gives "0 months ago" |
| TimeAgo.ZeroYearsGap | src/date/timeAgo.ts:48-53 | 360 days gives "0 years ago" |
| TimeAgo.CorrectedCountsAtLeastOne | src/date/timeAgo.ts:45-53 | corrected bands: past "just now", every phrase counts at least one unit |
| TimeAgo.CorrectionOnlyInGaps | src/date/timeAgo.ts:45-53 | the corrected bands differ from the source only at 28–29 and 360–364 days |
| TimeAgo.CorrectedFourWeeks | src/date/timeAgo.ts:45-47 | with the corrected bands, 28 days gives "4 weeks ago" |
| TimeAgo.CorrectedTwelveMonths | src/date/timeAgo.ts:48-50 | with the corrected bands, 360 days gives "12 months ago" |
| PhoneValidation.ValidatePhone | src/validation/validatePhone.ts:18-20 | empty or non-string input is rejected |
| PhoneValidation.AcceptedProjection | src/validation/validatePhone.ts:23-42 | an accepted number's digits-and-`+` projection is 7 to 15 digits, or `+` and 7 to 15 digits |
| PhoneValidation.AcceptedLimits | src/validation/validatePhone.ts:56-76 | an accepted number has at most 25 characters, at most 5 separators, no run of 3 separators, and at least twice as many digits as separators |
| PhoneValidation.AcceptedGroups | src/validation/validatePhone.ts:80-107 | an accepted local number with several digit groups has at most 4 groups of at most 4 digits, and 4 groups only with more than 12 digits |
| PhoneValidation.ContiguousDigitsAccepted | src/validation/validatePhone.ts:83-86 | 7 to 15 digits in a row are accepted |
| PhoneValidation.DashedShape | src/validation/validatePhone.ts:23-81 | digit groups joined by `-` project to their digits, count one separator per gap, have no separator run and split back into the same groups |
| PhoneValidation.ThirteenDigitExample | src/validation/validatePhone.ts:103-107 | "555-123-4567-890" (13 digits in 4 groups) is accepted as written and rejected once corrected |
| PhoneValidation.FourGroupsOfThirteenAccepted | src/validation/validatePhone.ts:100-107 | any local number of 4 short groups with 13 digits that passes the earlier rules is accepted |
| PhoneValidation.ValidatePhoneCorrected | src/validation/validatePhone.ts:103-107 | corrected check: empty or non-string input is rejected |
| PhoneValidation.CorrectedFourGroups | src/validation/validatePhone.ts:100-107 | the corrected check accepts 4 local groups only with at least 14 digits |
| PhoneValidation.CorrectionIsLocal | src/validation/validatePhone.ts:100-107 | outside local numbers of 4 groups and 13 digits, the corrected check agrees with the source |
| EmailValidation.ValidateEmail | src/validation/validateEmail.ts:17-19 | empty or non-string input is rejected |
| EmailValidation.PatternGrammar | src/validation/validateEmail.ts:22 | the pattern matches exactly the strings `local@label(.label)*` built from a valid local part and valid labels |
| EmailValidation.AcceptedShape | src/validation/validateEmail.ts:22-29 | an accepted address's trimmed text has exactly one `@`, a valid local part before it and valid dot-separated labels after it |
| EmailValidation.MatchedShape | src/validation/validateEmail.ts:22 | a match has exactly one `@`, no whitespace, and ends with a letter or digit |
| EmailValidation.JoinSplitDots | src/validation/validateEmail.ts:22 | splitting the domain at dots and joining it again gives it back |
| EmailValidation.SplitJoinDots | src/validation/validateEmail.ts:22 | joining dot-free labels and splitting at dots gives the labels back |
| EmailValidation.AtDotRejected | src/validation/validateEmail.ts:22 | `@.` never matches |
| EmailValidation.MissingPartsRejected | src/validation/validateEmail.ts:22 | "user@", "@example.com" and "user@.com" shapes never match |
| EmailValidation.RawChecksReject | src/validation/validateEmail.ts:25-27 | raw input holding `..` or `@@`, or starting or ending with `.`, is rejected, whatever trimming would leave |
| EmailValidation.PaddedAccepted | src/validation/validateEmail.ts:25-29 | a match without `..` or `@@`, padded with any whitespace on either side, is accepted, and so is a match starting with `.` once some whitespace precedes it |
| EmailValidation.AcceptedStaysAccepted | src/validation/validateEmail.ts:25-29 | any whitespace padding around an accepted address keeps it accepted |
| EmailValidation.PaddedLeadingDotAccepted | src/validation/validateEmail.ts:25-29 | a match starting with `.` is rejected bare but accepted after a leading space; the corrected check rejects both |
| EmailValidation.ValidateEmailTrimmed | src/validation/validateEmail.ts:25-29 | corrected check: empty or non-string input is rejected |
| EmailValidation.TrimmedIgnoresPadding | src/validation/validateEmail.ts:25-29 | the corrected check ignores surrounding whitespace entirely |
| EmailValidation.TrimmedAgreesUnpadded | src/validation/validateEmail.ts:25-29 | on input with no surrounding whitespace, the corrected check is the source's |
| EmailValidation.TrimmedRejectsEdgeDots | src/validation/validateEmail.ts:25-29 | the corrected check rejects a trimmed address that starts or ends with `.` |
| SafeValues.SafeValue | src/validation/safeValue.ts:18-30 | the result is the value or the fallback |
| SafeValues.SafeValueExactly | src/validation/safeValue.ts:20-29 | null, undefined and blank strings give the fallback; every other value comes back unchanged |
| SafeValues.BlankExactly | src/validation/safeValue.ts:25 | a string trims to "" exactly when all its characters are whitespace |
| SafeValues.FalsyKept | src/validation/safeValue.ts:29 | 0, false and "0" come back unchanged |
| SafeValues.ReferenceKept | src/validation/safeValue.ts:29 | an object comes back by reference |
| SafeValues.PresentFallback | src/validation/safeValue.ts:20-29 | a present fallback makes the result present |
| Dropdown.ToDropdown | src/array/toDropdown.ts:17-18 | non-array input gives []; otherwise the output has the input's length |
| Dropdown.ToDropdownPointwise | src/array/toDropdown.ts:18 | item i has label and value `arr[i]` |
| Dropdown.LabelsAndValues | src/array/toDropdown.ts:18 | the labels, and the values, are the input in order, duplicates included |
| Dropdown.ToDropdownAppend | src/array/toDropdown.ts:18 | the mapping distributes over concatenation |

## Left out

- Strings are ASCII. Case mapping, `\s` and `trim` use the six ASCII whitespace characters, without Unicode case folding.
- `normalize('NFD')` is the identity. The removal of U+0300 to U+036F is kept literally, so accented letters are not decomposed.
- Prototypes and inherited keys, Symbol keys, getters, functions (`typeof 'function'`) and NaN or -0 are not modelled.
- Numbers are mathematical integers, and Date times are integer milliseconds.
- Integer-like keys of plain objects are enumerated in insertion order, not in JavaScript's ascending-integer order.
- `deepClone` copies ordinary properties only of plain objects. The source copies no extra properties of Dates, RegExps, Maps and Sets either, and the model does the same.
- Cloning.DeepClone: requires every reference in the arena to point inside it (a closed, consistent heap). The WeakMap's garbage-collection behaviour is not modelled.
- DeepEquality.Symmetric: stated for heaps without Sets only, because the Set check is one-sided (`SetCheckOneSided`).
- `isEqual` and `merge` have no cycle guard. `isEqual` is modelled on acyclic heaps (a rank). `merge` is modelled with a depth budget whose exhaustion stands for the stack overflow.
- Merging.Merge: when the target is an array, the in-place write is guarded and does nothing. The source's callers always pass a record target, and `MergeAllShape` keeps it one.
- Merging.ShallowMerge and Merging.LaterSourceWins: whole-source results are stated for sources without nested records. The nested case is covered key by key by `RecordKeepsReference` and `LeafIsAssigned`.
- Slug.Slugify: a separator containing `$` is inserted literally; JavaScript's `$` replacement patterns (`$$`, `$&`, `` $` ``, `$'`) in the separator passed to `replace` at src/string/slugify.ts:41,45,47,49 are not modelled.
- Cloning.DeepClone: `isEqual(v, deepClone(v))` is proved (`CloneIsDeeplyEqual`) only for acyclic sources whose Maps are keyed by primitives; `isEqual` is not defined on cyclic heaps, and a Map keyed by an object differs from its copy (`ObjectKeyedMapDiffersFromCopy`).
- `timeAgo`'s default `now = Date.now()` is left out. `now` is always passed explicitly. Also left out: the `new Date(x)` conversion of arguments, and wide-range Date limits.
- `toDropdown`'s field `label` is called `caption`, because `label` is a Dafny keyword.
- Not part of this model: src/async/retry.ts, src/async/timeout.ts, src/async/throttle.ts and src/misc/debounce.ts (promises and timers); src/date/comparison.ts (wall clock and local calendar fields); src/date/formatDate.ts (a date library); src/date/toTimeZone.ts (Intl formatting and logging); src/number/convert.ts (floating-point parsing and formatting); src/index.ts (re-exports).

## Findings

| source | as written | input that shows it | evidently intended | confidence | as-written member | corrected member |
|---|---|---|---|---|---|---|
| src/validation/validatePhone.ts:103-107 | four local groups are rejected only at 12 digits | "555-123-4567-890" (13 digits) is accepted, though the comment names it as the pattern to reject | reject the four-group pattern the comment names, which has 13 digits | medium, not executed | PhoneValidation.ThirteenDigitExample | PhoneValidation.ValidatePhoneCorrected |
| src/validation/validateEmail.ts:25-29 | the raw checks run on the untrimmed string, but the pattern runs on the trimmed one | " .user@example.com" is accepted and ".user@example.com" rejected | run the leading and trailing dot checks on the trimmed text | medium, not executed | EmailValidation.PaddedLeadingDotAccepted | EmailValidation.ValidateEmailTrimmed |
| src/deep/merge.ts:25-32 | a falsy or non-object source returns at once | `merge({a: 1}, null, {b: 2})` returns `{a: 1}` | skip that source and apply the rest | medium, not executed | Merging.NullSourceDropsLaterSources | Merging.MergeAllSkipping |
| src/date/timeAgo.ts:45-53 | the week band ends at 4 weeks and the month band at 12 months of 30 days | 28 days gives "0 months ago" and 360 days "0 years ago" | never count zero units | high, not executed | TimeAgo.ZeroMonthsGap | TimeAgo.TimeAgoCorrected |
