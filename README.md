# PostgreSQL text codecs of ActiveRecord, in Dafny

This project models `ActiveRecord::ConnectionAdapters::PostgreSQL::Cast`. That Ruby module converts between Ruby values and the text forms PostgreSQL uses for its extended column types:

- hstore maps;
- array literals and nested arrays;
- bit strings;
- ranges;
- dates with an era suffix;
- points.

Every codec is a pure transformation, so the model is made of datatypes, functions and lemmas. There are no classes or loops, because the source has none.

A Ruby method that dispatches on the class of its argument (`Hash === object`, `String === string`, `nil`) takes a `Common.Dyn` value here: `Nil`, `Is(value)` or `Other(x)`. The contract states that an `Other` object is handed back unchanged.

| file | module | covers |
|---|---|---|
| `common.dfy` | `Common` | `Option`, the `Dyn` class tag, `join`, hstore escaping and unescaping, ASCII `upcase`, the `NULL` sentinel |
| `hstore.dfy` | `Hstore` | `escape_hstore`, `hstore_to_string`, the `HstorePair` grammar as a character scanner, `string_to_hstore` with `Hash[pairs]` |
| `array_literal.dfy` | `ArrayLiteral` | `quote_and_escape` and `array_to_string`, plus a reader for one level of PostgreSQL array syntax (section 8.15.6 of the PostgreSQL manual) that says what the database reads back |
| `nested_array.dfy` | `NestedArray` | `type_cast_array` and `string_to_array` over already parsed nested data |
| `bit_string.dfy` | `BitString` | `string_to_bit` |
| `range.dfy` | `Range` | `range_to_string`, plus a reader for unquoted range literals (section 8.17.5 of the PostgreSQL manual) |
| `temporal.dfy` | `Temporal` | `string_to_time`: the infinity words and the ` BC` suffix |
| `point.dfy` | `Point` | `point_to_string` and `string_to_point`, with Ruby's `split(',')` |

## Main results

- **Hstore round trip.** `string_to_hstore(hstore_to_string(h)) == h` holds for every Hash of text keys and text-or-`nil` values (`Hstore.HstoreRoundTrip`). This includes texts holding `"`, `\`, `,`, `=>` or line feeds, and the text `NULL`. As an array member, the Hash is written as one quoted array element, which the database reads as the plain hstore text (`Hstore.HstoreArrayMemberRoundTrip`).
- **`Hash[pairs]` semantics.** Keys appear in the order of their first occurrence, and the last duplicate wins.
- **Array literals.** PostgreSQL reads `array_to_string`'s output as exactly one element per Ruby element, in order (`ArrayLiteral.ArrayRoundTrip`). This holds whenever each element written without quotes is non-empty, holds none of `,{}"\` and does not begin or end with whitespace. Whitespace inside such an element, as in a time of day, is kept. With a caster that leaves text alone, every array of Strings arrives unchanged, including the String `NULL`.
- **Nested arrays.** `type_cast_array` keeps the nesting and applies the caster to each leaf, in order. Shape and leaves together determine a nested array.
- **Bit strings.** `string_to_bit` turns the hexadecimal digits into the canonical binary numeral of the same value. Every canonical binary numeral is what `to_s(2)` writes for its value.
- **Ranges and points.** Both round-trip through a reader of their literal syntax, and the lemmas name the inputs that lose information. For ranges this holds when no bound text holds any of `()[],"\`; section 8.17.5 of the PostgreSQL manual asks for quotes around such a bound, and `range_to_string` writes none.

Three behaviours of `cast.rb` that are easy to misread:

- **Array escaping.** `ARRAY_ESCAPE` is four backslash characters in a `gsub` replacement string. `gsub` reads a replacement's `\\` as one backslash, so each backslash becomes two, not four (`ArrayLiteral.ArrayEscapeIsEscaped`).
- **Infinite range bounds.** `range_to_string` leaves any infinite bound empty, of either sign and at either end. It does not only blank a negative lower bound or a positive upper one. The range is then read with no bound there, which the database stores as exclusive: `1..Float::INFINITY` is stored as `[1,)`. This holds when the finite bound's text needs no quotes (`Range.InfiniteIsUnbounded`).
- **Bit length.** The hex-to-binary conversion keeps the numeric value but not the bit length: leading zero bits are dropped (`BitString.LeadingZerosDropped`).

## Model

| member | source | states |
|---|---|---|
| Common.UnescapedEscaped | activerecord/lib/active_record/connection_adapters/postgresql/cast.rb:53-54 | the unescaping `gsub(/\\(.)/, '\1')` exactly undoes the escaping `escape_hstore` applies, for every text |
| Common.Escaped | activerecord/lib/active_record/connection_adapters/postgresql/cast.rb:140 | one more character for each `"` and each `\` in the text; `Common.UnescapedEscaped` shows it is undone by unescaping |
| Common.Unescaped | activerecord/lib/active_record/connection_adapters/postgresql/cast.rb:53-54 | never longer than its input, and a text without backslashes is unchanged |
| Common.Join | activerecord/lib/active_record/connection_adapters/postgresql/cast.rb:82 | `Array#join`: no parts give the empty text; otherwise the text starts with the first part, followed by the separator when there are more parts |
| Common.JoinLast | activerecord/lib/active_record/connection_adapters/postgresql/cast.rb:82 | a joined text ends with the last part; `Point.FieldsJoin` shows that splitting at the separator and joining again gives the text back |
| Common.Upcase | activerecord/lib/active_record/connection_adapters/postgresql/cast.rb:53 | `String#upcase` on ASCII: each character is upcased in place, so the length is kept and no lowercase ASCII letter remains |
| Common.UpcaseIdempotent | activerecord/lib/active_record/connection_adapters/postgresql/cast.rb:53 | upcasing twice is the same as upcasing once |
| Common.NullWordIsUpcase | activerecord/lib/active_record/connection_adapters/postgresql/cast.rb:53 | the sentinel test `v.upcase == 'NULL'` holds exactly for the four letters N, U, L, L in any letter case |
| Hstore.EscapeHstore | activerecord/lib/active_record/connection_adapters/postgresql/cast.rb:133-143 | `nil` and only `nil` becomes a `NULL` word, and that word is exactly `NULL`; every text becomes a double-quoted token whose inside is the text with `"` and `\` escaped, the empty text giving `""` |
| Hstore.DecodeEscapeHstore | activerecord/lib/active_record/connection_adapters/postgresql/cast.rb:133-143 | the unquoting and unescaping of `string_to_hstore` gives back the text any quoted token was made from |
| Hstore.PairText | activerecord/lib/active_record/connection_adapters/postgresql/cast.rb:40 | one entry is written as its quoted key token, `=>`, then its value token; `Hstore.MatchPairText` reads exactly these two tokens back |
| Hstore.QuotedLen | activerecord/lib/active_record/connection_adapters/postgresql/cast.rb:128 | a match of `quoted_string` starts and ends with `"` |
| Hstore.BareLen | activerecord/lib/active_record/connection_adapters/postgresql/cast.rb:129 | a match of the bare-token alternative starts with a bare character or a backslash; there is none exactly when the text is empty, or starts neither with a bare character nor with a backslash followed by a character other than a line feed |
| Hstore.MatchPair | activerecord/lib/active_record/connection_adapters/postgresql/cast.rb:127-131 | an `HstorePair` match at the head of the text is at least four characters long and starts with its non-empty key token; the pieces of the pattern are `QuotedLen` and `BareLen` (a token), `SpaceLen` (`\s*`), `ArrowValue` (`=>` with spaces, then a value token) and `PairAfterKey` (everything after the key token), and `ValueLen` tries the quoted alternative first |
| Hstore.Scan | activerecord/lib/active_record/connection_adapters/postgresql/cast.rb:52 | every match of `scan(HstorePair)` has a non-empty key token and a non-empty value token, and there is at most one match per four characters |
| Hstore.Unquoted | activerecord/lib/active_record/connection_adapters/postgresql/cast.rb:53-54 | `gsub(/\A"(.*)"\Z/m, '\1')`: putting the quotes back around the result gives the token when it is quoted, and before a final line feed when one follows the closing quote; any other token is unchanged |
| Hstore.HstoreToString | activerecord/lib/active_record/connection_adapters/postgresql/cast.rb:38-46 | a non-Hash is returned unchanged; a Hash becomes its `k=>v` texts joined by `,`; as an array member, that joined text is escaped once more into the single quoted token `escape_hstore` writes, which the hstore decoder turns back into the joined text |
| Hstore.QuotedLenEscaped | activerecord/lib/active_record/connection_adapters/postgresql/cast.rb:128 | the quoted-string alternative matches an escaped text exactly as far as its closing quote, whatever follows |
| Hstore.ValueLenEscaped | activerecord/lib/active_record/connection_adapters/postgresql/cast.rb:128-130 | a value token written by `escape_hstore`, quoted or `NULL`, is matched whole when the end or a comma follows |
| Hstore.MatchPairText | activerecord/lib/active_record/connection_adapters/postgresql/cast.rb:127-131 | `HstorePair` matches the text of one entry as exactly that entry's key token and value token |
| Hstore.ScanJoined | activerecord/lib/active_record/connection_adapters/postgresql/cast.rb:52 | `scan(HstorePair)` over the joined pair texts finds each entry's tokens once, in order, and nothing else |
| Hstore.DecodeToken | activerecord/lib/active_record/connection_adapters/postgresql/cast.rb:53-54 | the two `gsub`s on a token never lengthen it, and leave a bare token without backslashes as it is; `Hstore.DecodeEscapeHstore` shows they undo `escape_hstore` |
| Hstore.DecodePair | activerecord/lib/active_record/connection_adapters/postgresql/cast.rb:52-56 | a value becomes `nil` exactly when its raw token is a `NULL` word, and otherwise is its unquoted, unescaped token; the key is always the unquoted, unescaped key token |
| Hstore.DecodePairs | activerecord/lib/active_record/connection_adapters/postgresql/cast.rb:52-56 | the `map` over the matches: one entry per match, in order, each decoded by `DecodePair` |
| Hstore.NullSentinel | activerecord/lib/active_record/connection_adapters/postgresql/cast.rb:53-54 | a bare `NULL` value in any case is `nil`, the quoted `"NULL"` is the four-letter text, and a key is never `nil` |
| Hstore.IndexOf | activerecord/lib/active_record/connection_adapters/postgresql/cast.rb:52 | the position found holds the key, and there is none exactly when the key is absent |
| Hstore.Put | activerecord/lib/active_record/connection_adapters/postgresql/cast.rb:52 | storing a pair keeps keys distinct; an existing key keeps its place, a new key goes last |
| Hstore.Lookup | activerecord/lib/active_record/connection_adapters/postgresql/cast.rb:52 | a key is found exactly when the Hash holds it |
| Hstore.LookupPut | activerecord/lib/active_record/connection_adapters/postgresql/cast.rb:52 | after storing a pair, its key maps to its value and every other key to what it mapped to before |
| Hstore.FromPairs | activerecord/lib/active_record/connection_adapters/postgresql/cast.rb:52 | `Hash[pairs]` never holds a key twice |
| Hstore.FromPairsOrder | activerecord/lib/active_record/connection_adapters/postgresql/cast.rb:52 | `Hash[pairs]` lists its keys in the order of their first occurrence among the pairs |
| Hstore.FromPairsLookup | activerecord/lib/active_record/connection_adapters/postgresql/cast.rb:52 | in `Hash[pairs]` every key maps to the value of its last pair |
| Hstore.FromPairsUnique | activerecord/lib/active_record/connection_adapters/postgresql/cast.rb:52 | pairs whose keys are already distinct make exactly that Hash |
| Hstore.StringToHstore | activerecord/lib/active_record/connection_adapters/postgresql/cast.rb:48-60 | `nil` stays `nil`, a non-String is returned unchanged, a String becomes a Hash with distinct keys |
| Hstore.DecodeEncoded | activerecord/lib/active_record/connection_adapters/postgresql/cast.rb:52-56 | decoding the tokens written for a Hash's entries gives back the entries |
| Hstore.HstoreRoundTrip | activerecord/lib/active_record/connection_adapters/postgresql/cast.rb:38-60 | `string_to_hstore(hstore_to_string(h)) == h` for every Hash of text keys and text-or-`nil` values |
| Hstore.HstoreArrayMemberRoundTrip | activerecord/lib/active_record/connection_adapters/postgresql/cast.rb:38-60 | as an array member, the Hash is one quoted element that an array reader reads as the plain hstore text, whatever follows it, and that text reads back as the same Hash |
| ArrayLiteral.ArrayEscapeIsEscaped | activerecord/lib/active_record/connection_adapters/postgresql/cast.rb:145-153 | the two passes together put one backslash before every `\` and every `"`, as the hstore escaping does |
| ArrayLiteral.DoubleBackslashes | activerecord/lib/active_record/connection_adapters/postgresql/cast.rb:152 | one more character for each backslash, and unescaping the result gives the text back |
| ArrayLiteral.EscapeQuotes | activerecord/lib/active_record/connection_adapters/postgresql/cast.rb:153 | one more character for each `"`, and on a text without backslashes this is the hstore escaping |
| ArrayLiteral.RenderElement | activerecord/lib/active_record/connection_adapters/postgresql/cast.rb:71-81 | the String `NULL`, and any String its cast turns into text other than `NULL`, is written as a double-quoted token; a String cast to a Numeric is written as its digits; any other object is written as its cast result, unquoted |
| ArrayLiteral.QuoteAndEscape | activerecord/lib/active_record/connection_adapters/postgresql/cast.rb:147-156 | a Numeric and the text `NULL` are written bare; any other text is written as `"`, the text with `"` and `\` escaped, then `"`, so that the array reader reads back exactly that text, ending at the closing quote |
| ArrayLiteral.ReadItemCasted | activerecord/lib/active_record/connection_adapters/postgresql/cast.rb:147-156 | the database reads `quote_and_escape`'s output back as the cast result: the text, SQL NULL for the bare `NULL`, the Numeric's digits as a bare token |
| ArrayLiteral.ReadItemRendered | activerecord/lib/active_record/connection_adapters/postgresql/cast.rb:71-81 | each element, followed by the end or a comma, is read back as one element that takes up exactly its written text; the String `NULL` is read as text, not SQL NULL |
| ArrayLiteral.ReadItemPadded | activerecord/lib/active_record/connection_adapters/postgresql/cast.rb:79 | whitespace around an element written without quotes is dropped and whitespace inside it kept, so a bare cast result with an inner space is read as written |
| ArrayLiteral.ArrayToString | activerecord/lib/active_record/connection_adapters/postgresql/cast.rb:82 | the result is wrapped in braces around the elements joined by commas |
| ArrayLiteral.ArrayRoundTrip | activerecord/lib/active_record/connection_adapters/postgresql/cast.rb:70-83 | PostgreSQL reads `array_to_string`'s output as one element per Ruby element, in order, each what its cast result means |
| ArrayLiteral.StringArrayRoundTrip | activerecord/lib/active_record/connection_adapters/postgresql/cast.rb:70-83 | with a caster that leaves text alone, every array of Strings, the String `NULL` and texts with quotes and backslashes included, reaches the database unchanged |
| NestedArray.TypeCastArray | activerecord/lib/active_record/connection_adapters/postgresql/cast.rb:158-164 | an Array stays an Array of the same length; anything else becomes the caster's result for it |
| NestedArray.TypeCastKeepsShape | activerecord/lib/active_record/connection_adapters/postgresql/cast.rb:158-164 | casting keeps the nesting of the array exactly |
| NestedArray.TypeCastLeaves | activerecord/lib/active_record/connection_adapters/postgresql/cast.rb:158-164 | the leaves of the result are the caster applied to each leaf, in order |
| NestedArray.ShapeAndLeavesDetermine | activerecord/lib/active_record/connection_adapters/postgresql/cast.rb:158-164 | two nested arrays with the same nesting and the same leaves are equal, so casting loses nothing the caster keeps |
| NestedArray.TypeCastIdentity | activerecord/lib/active_record/connection_adapters/postgresql/cast.rb:158-164 | an identity caster leaves any nested array unchanged |
| NestedArray.StringToArray | activerecord/lib/active_record/connection_adapters/postgresql/cast.rb:121-123 | one result per parsed element, in order, each cast by `type_cast_array`; the results keep the parsed nesting, and their leaves are the caster applied to the parsed leaves, in order |
| BitString.LeadingHex | activerecord/lib/active_record/connection_adapters/postgresql/cast.rb:32 | the model of `.hex` reads the longest run of hexadecimal digits at the head of the text |
| BitString.ToBinary | activerecord/lib/active_record/connection_adapters/postgresql/cast.rb:32 | `to_s(2)` writes the canonical binary numeral whose value is the number |
| BitString.StringToBit | activerecord/lib/active_record/connection_adapters/postgresql/cast.rb:29-36 | `nil` and any object other than a String are returned unchanged; a String is converted as `BitText` says |
| BitString.BitText | activerecord/lib/active_record/connection_adapters/postgresql/cast.rb:29-36 | with a `0x` prefix at the start of any line, the result is a canonical binary numeral whose value is that of the hex digits from the third character on; without one, the text is unchanged |
| BitString.HexPrefixAt | activerecord/lib/active_record/connection_adapters/postgresql/cast.rb:31 | `/^0x/i` matches at `i` exactly when `i` starts a line and the next two characters upcase to `0X` |
| BitString.HexNotation | activerecord/lib/active_record/connection_adapters/postgresql/cast.rb:31-32 | `0x` followed by a non-empty run of hex digits gives the binary numeral of the number those digits spell, when the run is not followed by `_`, `x` or `X`, which `String#hex` would read further |
| BitString.ToBinaryOfValue | activerecord/lib/active_record/connection_adapters/postgresql/cast.rb:32 | every canonical binary numeral is what `to_s(2)` writes for its value, so each is reached |
| BitString.LeadingZerosDropped | activerecord/lib/active_record/connection_adapters/postgresql/cast.rb:32 | `0x0f` gives `1111`: leading zero bits are dropped |
| BitString.PrefixOnLaterLine | activerecord/lib/active_record/connection_adapters/postgresql/cast.rb:31-32 | a `0x` at the start of a later line also selects hexadecimal notation, and the digits are still read from the third character of the whole value: `abc\n0x1` gives `1100`, the bits of `c` |
| Range.RangeToString | activerecord/lib/active_record/connection_adapters/postgresql/cast.rb:85-89 | `[`, the lower bound's text, a comma, the upper bound's text, then `)` when the end is excluded and `]` otherwise, each piece at its stated position |
| Range.BoundText | activerecord/lib/active_record/connection_adapters/postgresql/cast.rb:86-87 | an infinite bound of either sign is written as empty text and a finite bound as its text; the range reader reads what is written as what the bound means |
| Range.RangeRoundTrip | activerecord/lib/active_record/connection_adapters/postgresql/cast.rb:85-89 | a range literal reader gives back the same bounds, an included start and the same end inclusion, an empty or infinite bound reading as no bound, which the database always stores as exclusive, when no bound text holds any of `()[],"\` |
| Range.InfiniteIsUnbounded | activerecord/lib/active_record/connection_adapters/postgresql/cast.rb:86-87 | an infinite bound reaches the database as no bound, and therefore an exclusive one, whatever its sign and at whichever end, when no bound text holds any of `()[],"\` |
| Temporal.FirstBC | activerecord/lib/active_record/connection_adapters/postgresql/cast.rb:22-23 | the position found is a match of `/ BC$/`, and there is no match before it |
| Temporal.BCAt | activerecord/lib/active_record/connection_adapters/postgresql/cast.rb:22 | `/ BC$/` matches at `i` exactly when the next three characters are ` BC` and the end of the text or a line feed follows |
| Temporal.ClassifyTime | activerecord/lib/active_record/connection_adapters/postgresql/cast.rb:19-26 | `infinity` and only it gives positive infinity, and `-infinity` and only it negative infinity; otherwise the text is handed on unchanged when ` BC` does not end a line, and otherwise with its first ` BC` removed and `-` in front |
| Temporal.StringToTime | activerecord/lib/active_record/connection_adapters/postgresql/cast.rb:16-27 | a non-String, `nil` included, is returned unchanged; a String is classified |
| Temporal.BCDate | activerecord/lib/active_record/connection_adapters/postgresql/cast.rb:22-23 | a one-line date with the ` BC` suffix is handed on as `-` followed by the date |
| Temporal.PlainTime | activerecord/lib/active_record/connection_adapters/postgresql/cast.rb:24-25 | a text that is not an infinity word and has no ` BC` at a line end is handed on unchanged |
| Temporal.BCOnFirstLine | activerecord/lib/active_record/connection_adapters/postgresql/cast.rb:22-23 | ` BC` also counts at the end of an inner line, and only its first match is removed |
| Point.PointToString | activerecord/lib/active_record/connection_adapters/postgresql/cast.rb:5-7 | `(`, the first component, a comma, the second component, then `)`, each at its stated position |
| Point.StripParens | activerecord/lib/active_record/connection_adapters/postgresql/cast.rb:10-12 | when the text starts with `(` and ends with `)`, putting the parentheses back around the result gives the text; otherwise the text is unchanged |
| Point.Fields | activerecord/lib/active_record/connection_adapters/postgresql/cast.rb:13 | one more field than there are commas, none holding a comma |
| Point.FieldsJoin | activerecord/lib/active_record/connection_adapters/postgresql/cast.rb:13 | joining the fields with commas gives the text back |
| Point.Split | activerecord/lib/active_record/connection_adapters/postgresql/cast.rb:13 | `split(',')` gives the fields up to the last non-empty one: only empty fields at the end are dropped |
| Point.StringToPoint | activerecord/lib/active_record/connection_adapters/postgresql/cast.rb:9-14 | the fields of the text with its parentheses stripped, up to the last non-empty one: only empty fields at the end are dropped; no component holds a comma |
| Point.PointRoundTrip | activerecord/lib/active_record/connection_adapters/postgresql/cast.rb:5-14 | two comma-free components, the second not empty, come back as exactly those two components |
| Point.EmptyYLost | activerecord/lib/active_record/connection_adapters/postgresql/cast.rb:5-14 | an empty second component is lost, and an empty first component with it |

## Left out

- `json_to_string` and `string_to_json` are not modelled: they only call ActiveSupport's JSON encoder and decoder.
- `string_to_cidr` and `cidr_to_string` are not modelled: they depend on `IPAddr` parsing and its mask representation.
- `Float()` in `string_to_point` is not modelled: components stay texts, and a malformed number raising an error is not captured.
- The generic time parser reached through `super` in `string_to_time` is not modelled. The result is the text it would be given (`Temporal.TimeTag.Delegate`).
- `adapter.type_cast` in `array_to_string` is a function parameter. Its results are texts or Numerics written by their `to_s`. A cast result of another class, such as `nil`, on which `quote_and_escape` would raise, is not modelled.
- `parse_pg_array` in `string_to_array` is not modelled: its result, a parsed nested structure, is the input. `oid.type_cast` is a function parameter.
- `array_to_string` does not recurse into nested Arrays itself: a nested Array goes to the caster like any other object. The reader `ArrayLiteral.ReadArray` therefore covers one level of array syntax. It drops whitespace around unquoted elements but not around quoted ones or the braces, and it does not read backslash escapes outside quotes.
- ArrayLiteral.ArrayRoundTrip: holds under `Unambiguous`, which excludes any element written without quotes that is empty, holds one of `,{}"\`, or begins or ends with whitespace. That includes a cast result that is itself a quoted token. For an hstore written as an array member, `Hstore.HstoreArrayMemberRoundTrip` states that case.
- Hstore.BareLen: the first character of a bare token is simplified. Ruby's `(?:\\.|[^\s,])` also accepts `=`, and a `\` that is last or before a line feed; the model gives no bare match there. `hstore_to_string` never writes such a token.
- Hstore.MatchPair: the bare-token alternative of `HstorePair` is simplified. A bare token is a run of escape pairs (`\` and any character but a line feed) and characters other than whitespace, `,`, `=` and `\`. The source also accepts `=` followed by a character other than `,` or `>` inside a bare token, and any non-space, non-comma character first. The quoted alternative is exact. `hstore_to_string` never writes a bare token other than `NULL`, so the round trip does not depend on the simplification.
- Hstore.Entry: keys and values are texts or `nil`. Other objects written with `to_s`, and `nil` keys, are not modelled.
- Common.Upcase: `String#upcase` is modelled on ASCII letters only. Only ASCII letters upcase to `N`, `U` or `L`, so the sentinel test is unaffected.
- BitString.StringToBit: a Symbol, which a Ruby pattern also matches, is treated like any other object that is not a String and returned unchanged.
- BitString.BitText: `String#hex` is modelled as the value of the leading run of hexadecimal digits. Its leniency is not modelled: leading whitespace, a sign, underscores between digits and a further `0x` after the prefix.
- BitString.HexNotation: covers a non-empty digit run that is not followed by `_`, `x` or `X`. Ruby reads `0x1_0` as 16 and `0x0x1` as 1, and the model of `.hex` stops before both.
- Range.Bound: a bound is a text or a Float infinity. Which Ruby objects respond to `infinite?`, and how they are written by `to_s`, is given rather than modelled.
- Range.ReadRange is a reference reader for unquoted range literals opened by `[`. Quoted bounds and bounds holding any of `()[],"\` are not read. It keeps a missing bound exclusive, but does not compare the bounds, recognise the empty range or canonicalise discrete range types.
- Range.RangeRoundTrip: says nothing about a bound whose text holds any of `()[],"\`. PostgreSQL needs such a bound quoted, and `range_to_string` does not quote it.
- Range.InfiniteIsUnbounded: says nothing about a finite bound whose text holds any of `()[],"\`, for the same reason.
