# env — environment-variable accessors, modelled in Dafny

The Go package `env` (one file, `env.go`) is a thin read-only layer over the process
environment. Every accessor re-scans the raw `KEY=VALUE` entries that `os.Environ()`
returns:

- `parseEntry` splits one entry at its first `=`.
- `Get` returns the value of the first well-formed entry with the key.
- `All` folds every well-formed entry into a map. A later entry overwrites an earlier one.
- `GetInt` reads a value as an `int`.
- `GetList` reads a value as a list split at unescaped colons.
- `MustGet`, `MustGetInt` and `MustGetList` panic where the accessor reports "not ok".

The model takes the environment as a parameter `env: seq<string>`. It has three modules:

- `Strconv` (`strconv.dfy`) covers the part of `strconv.ParseInt` that `GetInt` relies on, together with its inverse `FormatInt`.
- `Env` (`env.dfy`) covers `parseEntry`, `Get`, `All`, `GetInt`, `MustGet` and `MustGetInt`.
- `EnvList` (`env_list.dfy`) covers `GetList` and `MustGetList`.

Design choices:

- The three loops of the source (`Get`, `All` and `GetList`) are methods with `while`/`for` loops. Each is proved equal to a specification function (`Lookup`, `Table` and `Split`).
- The source properties are proved as lemmas about those functions.
- `parseEntry`, `GetInt` and the Must-variants are straight-line code in Go, so here they are functions.
- A panic is modelled as the `Panic` case of the result type `Must<T>`. It records the key and the variable's kind, which are the parts of the panic message that vary.

Where this model follows the code rather than what the package's doc comments and tests suggest:

- There is no override table and no `Set`/`Unset`. The package's tests (env_test.go) call them, but `env.go` has neither, so the environment is read-only here.
- `GetList` never appends the text after the last unescaped colon, because the loop in `env.go:83-89` has no final append. So `"x:y:z"` reads as `["x", "y"]`, and `"abc"` and `""` both read as `[]`. The doc comment at `env.go:73` calls the value "colon-separated strings", which suggests the last segment would be kept too. No test of the package covers `GetList`. The model follows the code.
- The loop's test for an unescaped colon is `i1 <= i0 || s[i1-1] != '\\'`. The cursor `i0` is always 0 or just after a colon, so this test equals the position-local test `i1 == 0 || s[i1-1] != '\\'` (`EnvList.IsSeparator`). `SplitValue` proves the loop correct against the position-local test.

## Model

| member | source | states |
|---|---|---|
| Env.ParseEntry | env.go:9-17 | `parseEntry`: the entry cut at its first `=`, rejected when that `=` is missing or at index 0; its contract is stated by `ParseEntrySpec` and `ParseEntryUnique` |
| Env.IndexOf | env.go:10 | `strings.Index` for one character: -1 exactly when the character is absent; otherwise the index of its first occurrence |
| Env.ParseEntrySpec | env.go:9-17 | an entry is rejected exactly when it has no `=` or starts with `=`, and a rejected entry gives empty key and value; an accepted entry has a non-empty key without `=`, and key + `=` + value is the entry, so the value may hold `=` |
| Env.ParseEntryUnique | env.go:9-17 | every way of writing an entry as a non-empty `=`-free key, `=` and a value is the split `parseEntry` returns |
| Env.Lookup | env.go:34-43 | found exactly when some well-formed entry has the key; the value is that of the first such entry in order; not found gives `("", false)` |
| Env.Get | env.go:34-43 | the scanning loop with early return computes `Lookup` |
| Env.Table | env.go:20-31 | the map `All` builds: every well-formed entry inserted in order; its keys and values are stated by `TableKeys` and `TableLast` |
| Env.All | env.go:20-31 | the loop inserting into `m` builds `Table` |
| Env.TableKeys | env.go:20-31 | the keys of `All`'s map are exactly the keys of well-formed entries |
| Env.TableLast | env.go:20-31 | each key of `All`'s map holds the value of the last well-formed entry with that key |
| Env.TableOther | env.go:24-27 | an entry that does not match a key leaves that key's presence and value in the map unchanged |
| Env.LookupTableKeys | env.go:20-43 | `Get` and `All` agree on which keys are present |
| Env.LookupTableAgree | env.go:20-43 | when all entries with a key carry one value, `All`'s map holds `Get`'s value |
| Env.LookupTableDisagree | env.go:20-43 | when the first and last entries with a key differ, `Get` returns the first and `All` holds the last |
| Env.DuplicateKeyExample | env.go:20-43 | for `["K=first", "K=second"]`, `Get` gives "first" and `All` gives "second" |
| Env.MalformedIgnored | env.go:24-37 | inserting a malformed entry anywhere changes neither `Get`'s result nor `All`'s map |
| Env.MalformedIgnoredByLookup | env.go:35-40 | a malformed entry anywhere leaves `Get`'s result unchanged |
| Env.MalformedIgnoredByTable | env.go:23-28 | a malformed entry anywhere leaves `All`'s map unchanged |
| Env.GetInt | env.go:58-71 | true exactly when the first entry with the key parses; the result is then the parsed value; otherwise the value is 0 |
| Env.GetIntMissingLikeMalformed | env.go:58-71 | "not ok" means missing or unparsable, and then the result equals that of an empty environment: `(0, false)` |
| Env.GetIntFormat | env.go:58-71 | a variable holding the canonical spelling of an `int` reads back as `(n, true)` |
| Env.GetIntExamples | env.go:58-71 | "42" gives `(42, true)` and "-1234" gives `(-1234, true)`, the sample values of env_test.go:34-56; "whatever" gives `(0, false)` because the parse error at env.go:64-68 sets ok to false |
| Env.SingleEntry | env.go:34-43 | in a one-entry environment a well-formed entry is found with its value |
| Env.MustGet | env.go:94-100 | `Get`'s value when the variable is present, a string-kind panic naming the key when it is missing |
| Env.MustGetInt | env.go:110-116 | `GetInt`'s value when it reports ok, an int-kind panic naming the key otherwise |
| Env.MustGetIntMalformed | env.go:110-116 | a present but unparsable variable panics just like a missing one |
| Strconv.DigitValue | env.go:64 | a digit's value is below 10 |
| Strconv.DigitChar | env.go:64 | the digit character for d < 10 is a digit whose value is d |
| Strconv.Digits | env.go:64 | the decimal spelling of n is canonical and denotes n |
| Strconv.SignAndDigits | env.go:64 | a leading `+` or `-` is stripped and anything else is kept whole; the sign is negative exactly for a leading `-` |
| Strconv.ParseInt | env.go:64-68 | a parsed value lies in the 64-bit `int` range; a syntax error happens exactly when the text after the sign is not a canonical decimal |
| Strconv.ParseFormat | env.go:64-70 | parsing the canonical spelling of n gives n inside the `int` range and a range error outside it |
| Strconv.LeadingDigitPositive | env.go:64 | digits with a non-zero first digit denote a positive number |
| Strconv.DigitsOfValue | env.go:64 | a canonical run of digits is the spelling of its own value |
| Strconv.ParseCanonical | env.go:64-70 | apart from a leading `+` and "-0", a string that parses is the canonical spelling of its value |
| Strconv.ParsePlus | env.go:64 | a leading `+` changes nothing: `+` followed by unsigned text parses exactly as the text does |
| Strconv.ParseIntExamples | env_test.go:34-65 | "42" parses to 42, "-1234" to -1234, and "whatever" is a syntax error |
| Strconv.ParsePlusExample | env.go:64 | "+42" parses to 42 |
| EnvList.Unescape | env.go:86 | `strings.Replace(s, "\\:", ":", -1)`: every `\:` pair, left to right and without overlap, becomes `:`; it is undone by `Escape` (`UnescapeEscape`) and leaves backslash-free text unchanged (`UnescapePlain`) |
| EnvList.UnescapePlain | env.go:86 | text without a backslash is left unchanged |
| EnvList.NextSeparator | env.go:83-84 | the first unescaped colon at or after k, with none in between, or the end of the string |
| EnvList.Segments | env.go:82-89 | the value cut at its unescaped colons into raw segments and the text after the last one; stated by `SegmentsSpec` and `SegmentsOfJoin` |
| EnvList.Split | env.go:82-89 | the list `GetList` returns: the raw segments, each unescaped, with the trailing text dropped; stated by `SplitLength`, `SegmentsOfJoin` and `EncodeSplit` |
| EnvList.SegmentsSpec | env.go:82-89 | every value is its raw segments, each followed by an unescaped colon, then trailing text; no segment and not the trailing text holds an unescaped colon, and no segment ends in a backslash |
| EnvList.JoinStep | env.go:84-87 | an unescaped colon at i puts the text before it at the front of the rest's join |
| EnvList.FirstSegmentIsRaw | env.go:84-86 | the text before the first unescaped colon holds none and does not end in a backslash |
| EnvList.JoinCons | env.go:86 | joining a segment in front of others writes it, a colon, then the rest |
| EnvList.AllRawCons | env.go:86 | putting a raw segment in front of raw segments keeps every segment raw |
| EnvList.PrefixAgrees | env.go:84 | a prefix has the same unescaped colons as the whole string below its length |
| EnvList.NextSeparatorAt | env.go:83-84 | an unescaped colon with none before it from k on is the next one |
| EnvList.NextSeparatorNone | env.go:83-84 | with no unescaped colon from k on, the next one is the end |
| EnvList.UnescapeAllAt | env.go:86 | unescaping a list keeps its length and unescapes each element in place |
| EnvList.GetList | env.go:74-92 | ok exactly when the variable is present; the list is then `Split` of `Get`'s value; missing gives an empty list |
| EnvList.SplitValue | env.go:80-89 | the cursor loop with `i0`/`i1` and the escaped-colon test computes `Split` |
| EnvList.SeparatorShift | env.go:84 | at the start or just after a colon, the suffix has the same unescaped colons as the string, so the `i1 <= i0` test agrees with the position-local one |
| EnvList.SplitStep | env.go:84-87 | at the next unescaped colon, the text since the cursor, unescaped, is the next element |
| EnvList.SuffixNextSeparator | env.go:83-84 | seen from the cursor, the next unescaped colon is the same one |
| EnvList.SplitCons | env.go:84-87 | a value with an unescaped colon splits into the unescaped text before it and the split of the rest |
| EnvList.SplitEnd | env.go:83-91 | with no unescaped colon after the cursor, nothing more is appended |
| EnvList.SegmentsOfJoin | env.go:82-89 | writing raw segments each followed by a colon, then text without an unescaped colon, splits back into exactly those segments, unescaped; the trailing text is dropped |
| EnvList.SplitLength | env.go:83-88 | the list has exactly one element per unescaped colon of the value |
| EnvList.Escape | env.go:86 | an escaped element does not start with a colon and ends in the element's last character |
| EnvList.UnescapeEscape | env.go:86 | replacing `\:` by `:` undoes escaping every colon |
| EnvList.EscapeNoSeparator | env.go:84 | an escaped element holds no unescaped colon |
| EnvList.EscapeAll | env.go:86 | escaping a list keeps its length and escapes each element in place |
| EnvList.EncodeSplit | env.go:82-89 | a list whose elements do not end in a backslash, each escaped and followed by a colon, reads back unchanged |
| EnvList.EncodeTrailingBackslash | env.go:84 | an element ending in a backslash escapes the colon written after it, so `["a\\"]` reads back as `[]` |
| EnvList.SplitExamplesEmpty | env.go:82-91 | "" and "abc" give the empty list |
| EnvList.SplitExampleDropsLast | env.go:82-91 | "x:y:z" gives `["x", "y"]`: the text after the last separator is dropped |
| EnvList.SplitExampleEscaped | env.go:82-91 | `a\:b:c` gives `["a:b"]` |
| EnvList.MustGetList | env.go:118-124 | `GetList`'s value when the variable is present, a list-kind panic naming the key when it is missing |

## Left out

- `os.Environ()` is process I/O. The environment is a parameter `env: seq<string>` instead, and every accessor reads the same sequence.
- `GetFloat` and `MustGetFloat` (env.go:46-55, 102-108) are left out because they rest on floating-point parsing (`strconv.ParseFloat` to `float64`).
- `Strconv.ParseInt` accepts only an optional sign followed by decimal digits without a redundant leading zero. Go's `strconv.ParseInt(s, 0, 0)` also accepts base prefixes (`0x`, `0o`, `0b`), leading-zero octal and `_` digit separators; the model reports these as syntax errors. The library's source is not part of this model. The range check is that of a 64-bit `int`. The model tells `ErrSyntax` from `ErrRange` by checking the whole text first, whereas Go reports whichever problem its scan meets first, so `"99999999999999999999x"` is a range error in Go and `ErrSyntax` here. env.go only tests `err != nil` (env.go:65), so `GetInt` is the same either way.
- Panics are modelled as a `Panic(key, kind)` result. Recovering from them and the `fmt.Errorf` message text are not modelled.
- Go distinguishes a `nil` slice, which `GetList` returns for a missing variable, from an empty one. Both are `[]` here.
- Go strings are byte sequences and the model uses `seq<char>`. An index here counts characters where Go's counts bytes, so `Env.IndexOf` of `"é=1"` is 1 where `strings.Index` gives 2. Every character the code inspects (`=`, `:` and `\`) is ASCII, so the text of the keys, values and list elements is the same in both.
- `strings.Index` and `strings.Replace` come from Go's standard library and are modelled by their documented behaviour: `Env.IndexOf` and `EnvList.Unescape`.
- The override table, `Set`, `Unset`, `GetIntDefault` and `MustGetIntDefault` appear in the package's tests but not in `env.go`, so they are not modelled. The tests serve only as the source of the sample values.
- `EnvList.Escape` and `EnvList.Encode` write values in the list format. They are not part of `env.go` and exist to state the round trip.
- Concurrent changes to the environment are not modelled; the code has no concurrency of its own.
