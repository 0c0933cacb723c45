# Dynaframe helpers in Dafny

Dynaframe is a networked photo-frame slideshow player. This project models the
static helpers in `src/Dynaframe3/Helpers.cs` that carry its logic:

- **The playlist shuffle.** `Shuffle` and `Swap` reorder a list in place, and
  the list object itself is returned.
- **The typed setters.** Five "parse-and-set" helpers (`SetIntAppSetting`,
  `SetFloatAppSetting`, `SetDoubleAppSetting`, `SetStringAppSetting`,
  `SetBoolAppSetting`) take a value from the web control surface. Each may
  write it into one named property of the shared `ServerAppSettings.Default`,
  and reports 0 or 1.
- **The self-identification strings.** `GetIPString` and `GetIP` tell the
  user where to reach the frame: they filter the machine's addresses and
  format them.

Files:

- `shuffle.dfy` (module `Shuffling`):
  - The list is an `array<T>`. The random source is the sequence of values it
    hands out, one per pass of the loop.
  - `Shuffle` and `Swap` are methods that change the array. They are proved
    against the specification functions `SwapAt`, `AfterPasses` and
    `Shuffled` over sequences.
  - The lemmas cover permutation, the fixed behaviour on short lists, and the
    consequences of the draw bound the code uses.
- `app_settings.dfy` (module `AppSettings`):
  - `ServerAppSettings` is a class. Its declared properties are a `schema`
    fixed at construction. Its `values` map from property name to a tagged
    value, and the setters reassign it.
  - The setters are methods that take the settings object explicitly.
  - A null query-string value is `None`.
- `int32_parse.dfy` (module `Int32Parse`): `int.TryParse` with the default
  integer style, and the decimal formatting it inverts.
- `text.dfy` (module `Text`): the .NET string operations the helpers use.
  These are `StartsWith`, `Contains`, `char.IsWhiteSpace`, `Trim` and
  `ToUpper`.
- `network_addresses.dfy` (module `NetworkAddresses`):
  - The address filter and the two formatters are pure functions of the
    address list.
  - `GetIPString` also takes the version string and the host's newline.
- `options.dfy` (module `Options`): the `Option` type used for null and for
  failed parses.

`Helpers.cs:15` calls the method a Fisher-Yates shuffle. In a Fisher-Yates
shuffle, the pass on index `i` draws from `[0, i]`. The code draws
`rnd.Next(list.Count - 1)`, that is from `[0, n - 2]`, on every pass. The model
follows the code, and the consequence is recorded under "Findings".

## Model

| member | source | states |
|---|---|---|
| Shuffling.Swap | src/Dynaframe3/Helpers.cs:25-30 | The list becomes the old list with positions i and j exchanged, and no other position changes; i == j leaves the list as it was. |
| Shuffling.SwapAtElements | src/Dynaframe3/Helpers.cs:27-29 | After a swap, position i holds the old element at j, position j the old element at i, and every other position its old element. |
| Shuffling.SwapAt | src/Dynaframe3/Helpers.cs:25-30 | Exchanging two positions keeps the length and the multiset of elements. |
| Shuffling.Shuffle | src/Dynaframe3/Helpers.cs:18-23 | The loop, run with draws below n - 1 as rnd.Next(Count - 1) gives them, leaves the list equal to the specification of all its passes. The list keeps its length and multiset of elements, and the same list object is returned. |
| Shuffling.CodeDrawsInBounds | src/Dynaframe3/Helpers.cs:20-21 | Draws below n - 1, one per pass, keep every swap index inside the list. |
| Shuffling.AfterPasses | src/Dynaframe3/Helpers.cs:20-21 | The list after any number of the loop's passes is a permutation of the input: same length, same multiset. |
| Shuffling.Shuffled | src/Dynaframe3/Helpers.cs:18-23 | The list after all the passes has the input's length and multiset of elements. |
| Shuffling.ShortLists | src/Dynaframe3/Helpers.cs:20-21 | A list of 0 or 1 elements is left unchanged. A list of 2 elements is always reversed under the code's draws. |
| Shuffling.LastPositionSettled | src/Dynaframe3/Helpers.cs:20-21 | Under the code's draws, once the first pass has filled the last position, no later pass changes it. |
| Shuffling.ShuffleCannotKeepLast | src/Dynaframe3/Helpers.cs:20-21 | For at least two distinct elements, the element that starts last never ends last, so the output never equals the input. |
| Shuffling.FisherYatesShuffle | src/Dynaframe3/Helpers.cs:15-23 | The corrected loop, whose pass on index i draws from [0, i], equals its specification and is a permutation of the input. |
| Shuffling.FisherYatesDrawsInBounds | src/Dynaframe3/Helpers.cs:20-21 | Fisher-Yates draws keep every swap index inside the list. |
| Shuffling.FisherYatesPeel | src/Dynaframe3/Helpers.cs:20-21 | Under Fisher-Yates draws, the first pass fixes the last element, and the remaining passes shuffle the rest in the same way. |
| Shuffling.FisherYatesLastPass | src/Dynaframe3/Helpers.cs:20-21 | A Fisher-Yates shuffle ends with the element chosen by the first draw, after a Fisher-Yates shuffle of the remaining elements. |
| Shuffling.FisherYatesReachesEveryOrder | src/Dynaframe3/Helpers.cs:15-23 | Every rearrangement of the input, meaning any list with the same multiset, is produced by some sequence of Fisher-Yates draws. |
| Shuffling.FisherYatesDrawsDetermined | src/Dynaframe3/Helpers.cs:15-23 | Over distinct elements, two Fisher-Yates draw sequences with the same outcome are equal. So each order comes from exactly one draw sequence. |
| AppSettings.ServerAppSettings.constructor | src/Dynaframe3/Helpers.cs:163 | The settings hold the given defaults. Every property's declared type is the type of its default. |
| AppSettings.SetIntAppSetting | src/Dynaframe3/Helpers.cs:156-168 | A null value changes nothing and reports 0. Otherwise the method reports 1, even when parsing fails. If int.TryParse accepts the text, exactly the named property becomes the parsed Int32; if not, nothing changes. |
| AppSettings.SetFloatAppSetting | src/Dynaframe3/Helpers.cs:175-187 | The same contract as for the int setter, with float.TryParse as the parser. |
| AppSettings.SetDoubleAppSetting | src/Dynaframe3/Helpers.cs:194-206 | The same contract as for the int setter, with double.TryParse as the parser. |
| AppSettings.SetStringAppSetting | src/Dynaframe3/Helpers.cs:215-223 | A null value changes nothing and reports 0. Otherwise the named property becomes the text verbatim, no other property changes, and it reports 1. |
| AppSettings.SetBoolAppSetting | src/Dynaframe3/Helpers.cs:231-246 | A null value changes nothing and reports 0. Otherwise the named property becomes true exactly when the text reads "ON" in any letter case, and false otherwise; it reports 1. |
| AppSettings.IsOn | src/Dynaframe3/Helpers.cs:235 | Upper-casing the text gives "ON" exactly for "ON", "On", "oN" and "on". |
| Int32Parse.ParseInt32 | src/Dynaframe3/Helpers.cs:161 | Any value int.TryParse accepts lies in the Int32 range. |
| Int32Parse.FormatInt32 | src/Dynaframe3/Helpers.cs:161 | The decimal text of a number starts with '-' exactly when the number is negative, and every other character is a digit. |
| Int32Parse.ParseFormatRoundTrip | src/Dynaframe3/Helpers.cs:161 | Parsing the decimal text of any Int32 gives that Int32 back. |
| Int32Parse.ParseRejectsOutOfRange | src/Dynaframe3/Helpers.cs:161 | The decimal text of any number outside the Int32 range does not parse, so the setter leaves the property as it was. |
| Int32Parse.ParseNeedsDigit | src/Dynaframe3/Helpers.cs:161 | Text that int.TryParse accepts contains at least one decimal digit. |
| Int32Parse.ParseIgnoresSurroundingWhite | src/Dynaframe3/Helpers.cs:161 | Spaces, tabs and line breaks before and after the number do not change what it parses to. |
| Int32Parse.ParseAcceptsPlusAndZero | src/Dynaframe3/Helpers.cs:161 | A leading plus sign and a leading zero before the digits of a non-negative Int32 still parse to that value. |
| Text.StartsWith | src/Dynaframe3/Helpers.cs:61 | A text starts with a prefix exactly when it is at least as long and agrees with the prefix at every position of the prefix. |
| Text.Contains | src/Dynaframe3/Helpers.cs:61 | A text contains a string exactly when that string occurs in it at some position. |
| Text.IsWhiteSpace | src/Dynaframe3/Helpers.cs:109 | No digit, ASCII letter, '.' or ':' is white space, so no character of an address or of ":8000" is trimmed. |
| Text.Trim | src/Dynaframe3/Helpers.cs:109 | The trimmed text has no white space at either end. |
| Text.TrimSlice | src/Dynaframe3/Helpers.cs:109 | The trimmed text is a contiguous part of the input, and everything before and after that part is white space. |
| Text.TrimOfTrimmed | src/Dynaframe3/Helpers.cs:109 | Text without white space at either end is its own trim, so trimming twice is trimming once. |
| Text.TrimDropsTrailingBlank | src/Dynaframe3/Helpers.cs:100-109 | When text has no white space at either end, trimming it with one trailing blank gives it back. |
| Text.ToUpper | src/Dynaframe3/Helpers.cs:235 | Upper-casing keeps the length and maps each character on its own. |
| NetworkAddresses.IsListedMeaning | src/Dynaframe3/Helpers.cs:99 | The filter admits an address exactly when its first four characters are neither "169." nor "127." and no two neighbouring characters are both ':'. |
| NetworkAddresses.Listed | src/Dynaframe3/Helpers.cs:61 | An address is emitted exactly when it is among the input addresses and starts with neither "169." nor "127." and has no "::". No more entries come out than went in. |
| NetworkAddresses.ListedAppend | src/Dynaframe3/Helpers.cs:48-63 | Filtering the addresses of several interfaces in turn filters each one and keeps enumeration order. |
| NetworkAddresses.AppendListed | src/Dynaframe3/Helpers.cs:55-63 | The appending loop adds exactly one entry per listed address, in enumeration order, after what was already there. |
| NetworkAddresses.GetIPString | src/Dynaframe3/Helpers.cs:38-73 | The result is the version line followed by one "http://address:8000 " line per listed address, in enumeration order. |
| NetworkAddresses.GetIP | src/Dynaframe3/Helpers.cs:79-111 | The result has no white space at either end. |
| NetworkAddresses.GetIPJoinsEndpoints | src/Dynaframe3/Helpers.cs:93-109 | GetIP is the "address:8000" endpoints of the listed addresses joined by single blanks. It is empty when no address is listed. |
| NetworkAddresses.ListedNoWhiteSpace | src/Dynaframe3/Helpers.cs:93-101 | Every listed address is one of the input addresses, so it keeps any absence of white space they all share. |
| NetworkAddresses.SplitJoin | src/Dynaframe3/Helpers.cs:100 | Splitting at blanks undoes joining with blanks, for pieces that contain no blank. |
| NetworkAddresses.GetIPReadBack | src/Dynaframe3/Helpers.cs:79-111 | Splitting GetIP's result at blanks gives back the endpoints of the listed addresses, in enumeration order. |

## Left out

- `RunProcess` (Helpers.cs:120-138) is not modelled: it starts an operating-system process.
- `GetTemp` (Helpers.cs:143-148) is not modelled: it is an empty stub.
- `DumpAppSettingsToLogger` (Helpers.cs:248-263) is not modelled: it only writes to the log.
- Program start-up, the device cache and the HTTP retry policy are not part of this model.
  - They are host wiring and asynchronous networking.
  - The retry policy is a configured third-party library.
- Interface enumeration in the address helpers (`NetworkInterface.GetAllNetworkInterfaces`) is not modelled.
  - The addresses are an input, flattened in enumeration order.
  - An interface whose enumeration throws contributes the addresses read before the exception. The exception and its log line are not modelled.
- The version string (`Assembly...Version`) and `Environment.NewLine` are parameters of `GetIPString`.
- Shuffle: the random source is a parameter. The model proves order facts only and makes no probability claim.
  - `FisherYatesReachesEveryOrder` and `FisherYatesDrawsDetermined` together show that each order comes from exactly one draw sequence.
  - That uniform draws then give a uniform shuffle is not stated in Dafny.
- Shuffling.Swap: requires both indices inside the list. In the source, a negative or too-large index makes the `IList` indexer throw before anything is written; `Shuffle` never passes one.
- Shuffle: `IList<T>` is modelled by an array. The array has the same in-place update and identity, but not list implementations with their own indexer logic.
- SetFloatAppSetting and SetDoubleAppSetting: `float.TryParse` and `double.TryParse` are parameters returning IEEE 754 bit patterns. The decimal-to-binary rounding is not modelled.
- Reflection is modelled as a map from property name to a tagged value (`GetProperty(property).SetValue`).
  - The setters require the named property to exist with the matching type on the path where they write it. In the source, a missing property or a mismatched type throws there.
  - Reflection's implicit widening, such as an int into a float property, is not modelled.
- Int32Parse.ParseInt32: its own contract only bounds the value it returns. Which text is accepted, and with which value, is stated by the lemmas beside it: `ParseFormatRoundTrip`, `ParseRejectsOutOfRange`, `ParseIgnoresSurroundingWhite`, `ParseAcceptsPlusAndZero` and `ParseNeedsDigit`.
- Int32Parse.ParseInt32: models the invariant culture only.
  - The sign is `-` or `+`.
  - The text may be surrounded by U+0009 to U+000D and U+0020.
  - Culture-specific signs and trailing U+0000 characters, which .NET also skips, are not modelled.
- Text.ToUpper: maps only the ASCII letters.
  - .NET's culture-sensitive `ToUpper` also maps other letters.
  - Only "ON" matters, and only ASCII letters upper-case to 'O' and 'N' in the invariant culture, so `IsOn` is unaffected.
- Text.StartsWith is compared character by character. .NET's default comparison is culture-sensitive, which for the ASCII prefixes "169." and "127." agrees on ordinary addresses.

## Findings

| source | as written | input that shows it | evidently intended | confidence | as-written member | corrected member |
|---|---|---|---|---|---|---|
| src/Dynaframe3/Helpers.cs:21 | Every pass swaps index i with `rnd.Next(list.Count - 1)`, a draw from [0, n - 2] whatever i is. The first pass puts an element from [0, n - 2] in the last position, and no later pass reaches that position. So the element that starts last can never end last, and for distinct elements the input order is never produced. | Any list of two or more distinct items, e.g. [a, b, c]: no draws produce an order ending in c, and [a, b] always becomes [b, a]. | A Fisher-Yates shuffle, as the comment at line 15 says, where the pass on index i draws from [0, i] so that every order is reachable. | not executed; the proof covers every input, with no particular run | Shuffling.ShuffleCannotKeepLast | Shuffling.FisherYatesReachesEveryOrder |
