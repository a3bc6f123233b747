# Codec generator core: identifiers, type names and name transliteration

This project models the core of `util.py`, the helper module of the client
protocol codec generator. Every request, response and event a client sends
or receives is described in a service document, and the generator turns each
method of each service into a codec. The model covers the logic that
generation depends on:

- **Message identifiers** (`message_ids.dfy`, `codecs.dfy`). `generate_codecs`
  gives every message an identifier. It formats
  `"0x%02x%02x%02x" % (service id, method id, role)` and reads the text back
  with `int(..., 16)`. The role is 0 for the request, 1 for the response and
  `i + 2` for the `i`-th event. The pass writes the identifiers into the
  method records in place. It skips services on the language's ignore list.
  Only `NotImplementedError` from rendering is caught, so any other exception
  ends the pass. For records that passed validation, the model covers the
  two that come from the pass itself: a `methods: null` entry (`TypeError`),
  and a method whose codec file name cannot be built because `capital` meets
  an empty name (`IndexError`). In
  the model, `Id` lays the three numbers out side by side in hex, and
  `IdReadsText` proves that this is the value of the formatted literal.
  `AssignEventIds`, `AssignMethodIds` and `AssignIds` are the loops.
  `MethodWithIds` is the body of the loop over methods, and
  `AssignServiceIds` the body of the loop over services. The method records
  of a service are kept in an `array`. The loops are proved against the
  value-level functions `NumberEvents`, `WithIds`, `WithIdsUpTo` and
  `RecordsAfter`.
- **Type classifier** (`type_names.dfy`):
  - `is_fixed_type`;
  - the `fixed_params`/`var_size_params` partition of a field list;
  - the four `is_var_sized_*` container predicates, each a prefix test plus
    an override table;
  - the decomposers `item_type`, `key_type`, `value_type` and `enum_type`,
    built on `str.split(sep, maxsplit)`.

  The override tables and the per-language `lang_name` are parameters.
- **Name transliteration** (`names.dfy`): `capital`, `param_name`,
  `java_name`/`cpp_name` and `to_upper_snake_case`, plus the per-method codec
  file name. The regular expression of `to_upper_snake_case` becomes the
  predicate `BreakBefore`, which tests for a capital that is not first and
  that follows a lower-case letter or digit or precedes a lower-case letter.
- **Content hash** (`content_hash.dfy`): `save_file` replaces every
  `!codec_hash!` in the rendered text by the digest of that text. The digest
  function is a parameter. A hex digest of at least 11 characters (md5 gives
  32) leaves no placeholder behind. Lacking `!` alone is not enough:
  `"!!codec_hash!!"` with digest `"codec_hash"` becomes `"!codec_hash!"`.
- **Python builtins** (`py_string.dfy`, `outcomes.dfy`): `str.split` with and
  without `maxsplit`, `join`, `startswith`, ASCII `upper`/`lower` and
  `str.replace`. `IndexOf`, the search `split` relies on, returns the length
  of the text, not -1, when the character is absent. Python's `IndexError` is a value of `Outcome`, so a caller
  that triggers it is modelled rather than excluded.

Behaviour of the code worth knowing, each proved below:

- A role above 255 does not wrap: `%02x` prints a third digit.
  `IdRoleOverflowCollides` shows that the 255th event of method 0 of
  service 1 gets the identifier of the request of method 1 of service 16.
- `enum_type` takes `split('_', 2)[1]`, so it keeps only the text up to a
  second `_`: `Enum_A_B` gives `A` (`EnumTypeDropsSuffix`).
- Only `NotImplementedError` is caught around rendering, so a null `methods`
  or an empty name ends the pass. `AssignIds` then returns
  `completed == false`, and exactly the records written up to that point are
  enriched.

## Model

| member | source | states |
|---|---|---|
| PyString.Split | util.py:16 | `s.split(sep)` gives at least one part; no part holds `sep`; joining the parts with `sep` gives `s` back |
| PyString.StartsWith | util.py:30 | `s.startswith(p)`: `p` is no longer than `s` and is its prefix |
| PyString.Join | util.py:16 | `sep.join(parts)` for a one-character separator: the parts in order with `sep` between neighbours |
| PyString.Concat | util.py:16 | `"".join(parts)`: the parts in order with nothing between them |
| PyString.SplitJoin | util.py:16 | splitting a join of separator-free parts gives the same parts back |
| PyString.SplitN | util.py:34 | `s.split(sep, n)` gives 1 to n+1 parts that join back to `s`; every part but the last is free of `sep`, and the last is too when fewer than n splits happened |
| PyString.IndexOf | util.py:16 | the first index holding `c`, or the length when `c` is absent |
| PyString.Upper | util.py:42 | `str.upper()` on ASCII: same length, every character upper-cased, no lower-case letter left |
| PyString.UpperChar | util.py:38 | the one-character `capitalize()` on ASCII: a lower-case letter becomes its capital, 32 code points lower; any other character stays |
| PyString.LowerChar | util.py:22 | the one-character `lower()` on ASCII: a capital becomes its lower-case letter, 32 code points higher; any other character stays |
| PyString.Replace | util.py:191 | `str.replace` scanning left to right without overlap; a text without the pattern is returned unchanged |
| PyString.ReplaceBySelf | util.py:191 | replacing a pattern by itself gives the text back |
| Names.Capital | util.py:37-38 | `capital` fails with `IndexError` exactly on the empty string; otherwise it upper-cases the first character and keeps the length and every other character |
| Names.ParamName | util.py:21-22 | `param_name` fails exactly on the empty string; otherwise it lower-cases the first character and keeps the length and every other character |
| Names.CapitalIdempotent | util.py:37-38 | capitalising twice is capitalising once |
| Names.ParamNameCapitalRoundTrip | util.py:21-22 | `param_name` undoes `capital` on a name starting with a lower-case letter, and `capital` undoes `param_name` on a name starting with a capital |
| Names.StripParens | util.py:16 | removing `(` and `)` leaves neither; every other character occurs exactly as often as in the input; a name without parentheses is unchanged |
| Names.StripParensAppend | util.py:16 | removing parentheses from `a + b` gives the result for `a` followed by the result for `b`, so the kept characters stay in order |
| Names.StripParensIsReplace | util.py:16 | `StripParens` equals `Replace(Replace(name, "(", ""), ")", "")`, the two `str.replace` calls as written |
| Names.StripParensExample | util.py:16 | `"a(b)"` becomes `"ab"` |
| Names.CamelJoin | util.py:16 | joining capitalised parts succeeds exactly when no part is empty; parts free of `(`, `)` and `_` give a result free of them |
| Names.SplitPartsNonEmpty | util.py:16 | every part of `s.split(sep)` is non-empty exactly when `s` is non-empty, neither starts nor ends with `sep`, and has no two `sep` in a row |
| Names.JavaName | util.py:15-16 | `java_name` succeeds exactly when the name without parentheses is such a well-separated word list; its result has no `(`, `)` or `_` |
| Names.CppName | util.py:18-19 | `cpp_name` equals `java_name` on every input |
| Names.JavaNameOfWord | util.py:15-16 | a plain word is only capitalised |
| Names.JavaNameOfPair | util.py:15-16 | `a_b` becomes `Capital(a) + Capital(b)` |
| Names.CapitalParts | util.py:16 | the list comprehension `[capital(part) for part in ...]` over non-empty parts: one result per part, each the `capital` of that part |
| Names.CamelJoinConcat | util.py:16 | joining capitalised non-empty parts is `"".join` of the capitalised parts |
| Names.JoinAvoids | util.py:16 | a character that is neither the separator nor in any part is not in the joined text |
| Names.JavaNameOfWords | util.py:15-16 | words joined by `_`, each non-empty and free of `(`, `)` and `_`, give the concatenation of the capitalised words |
| Names.JavaNameWithParens | util.py:15-16 | a type name whose text without parentheses is such a word list gives the same concatenation of capitalised words |
| Names.ToUpperSnakeCase | util.py:41-42 | the result is at least as long as the input and holds no lower-case letter |
| Names.BreakBefore | util.py:42 | the expression matches the capital at index `i`: it is not first, and it follows a lower-case letter or digit or precedes a lower-case letter |
| Names.Underscored | util.py:42 | `re.sub` with replacement `_\1`: from index `i` on, every character is copied and an `_` goes before each one `BreakBefore` matches |
| Names.SnakeCaseDropsToUpper | util.py:41-42 | deleting every `_` from the result gives the upper-cased input with its own `_` deleted, and exactly the upper-cased input when it had no `_` |
| Names.InsertsOnly | util.py:42 | `t` is `r` with some copies of `c` deleted: every character of `t` appears in `r` in the same order, and `r` has nothing else but `c` |
| Names.UnderscoredInserts | util.py:42 | the `re.sub` step only inserts `_` into the input, from any index on |
| Names.UpperInserts | util.py:42 | upper-casing both texts keeps such an insertion of `_` |
| Names.SnakeCaseInsertsOnly | util.py:41-42 | `to_upper_snake_case(s)` is `s.upper()` with `_` inserted and nothing else changed; the input's own `_` stay in place |
| Names.InsertsOnlyKeepsOrder | util.py:42 | `A__B` is `A_B` with one `_` inserted; `AB__` is not, because the input's own `_` must stay between `A` and `B` |
| Names.SnakeCaseFirstChar | util.py:41-42 | no `_` is inserted before the first character |
| Names.SnakeCaseOfLowerCase | util.py:41-42 | an input without capitals gains no `_`; it is only upper-cased |
| Names.SnakeCaseOfCamelCase | util.py:41-42 | `putAll` becomes `PUT_ALL` |
| Names.SnakeCaseOfAcronym | util.py:41-42 | `HTTPServer` becomes `HTTP_SERVER`: no break inside the acronym, one before the capital that starts a word |
| Names.CodecFileName | util.py:83 | the codec file name exists exactly when the service and method names are non-empty; it is `capital(service)`, then `capital(method)`, then `Codec.` plus the extension, character by character |
| TypeNames.FixedParams | util.py:47-48 | `fixed_params` keeps only fields whose type is in the fixed-length table |
| TypeNames.VarSizeParams | util.py:51-52 | `var_size_params` keeps only the other fields |
| TypeNames.ParamsPartition | util.py:47-52 | the two lists together hold every field exactly as often as the input; a field is in the first exactly when it is a fixed-size field of the input, and in the second exactly when it is any other field of it |
| TypeNames.FixedParamsKeepOrder | util.py:47-48 | `fixed_params` of `a + b` is `fixed_params(a) + fixed_params(b)`, so relative order is kept |
| TypeNames.VarSizeParamsKeepOrder | util.py:51-52 | the same for `var_size_params` |
| TypeNames.IsFixedType | util.py:25-26 | a field is fixed-size exactly when its type is in the fixed-length table |
| TypeNames.IsEnum | util.py:29-30 | a type is an enum exactly when it starts with `Enum_` |
| TypeNames.IsVarSizedList | util.py:145-146 | the name starts with `List_` and is not in the fixed list table |
| TypeNames.IsVarSizedListContainsNullable | util.py:149-150 | the name starts with `ListCN_` and is not in the fixed list table, the same table as `is_var_sized_list` |
| TypeNames.IsVarSizedMap | util.py:153-154 | the name starts with `Map_` and is not in the fixed map table |
| TypeNames.IsVarSizedEntryList | util.py:157-158 | the name starts with `EntryList_` and is not in the fixed entry-list table |
| TypeNames.VarSizedExclusive | util.py:145-158 | at most one `is_var_sized_*` predicate holds for any name; none holds without a container prefix; an override entry switches its predicate off |
| TypeNames.ItemType | util.py:132-134 | `item_type` returns a value exactly for `List_` and `ListCN_` names; an `IndexError` from `lang_name` itself is carried in `T` |
| TypeNames.KeyType | util.py:137-138 | the `split('_', 2)[1]` of `key_type` raises `IndexError` exactly when the name has no `_`; an `IndexError` from `lang_name` itself is carried in `T` |
| TypeNames.ValueType | util.py:141-142 | the `split('_', 2)[2]` of `value_type` raises `IndexError` exactly when the name has fewer than two `_`; an `IndexError` from `lang_name` itself is carried in `T` |
| TypeNames.EnumType | util.py:33-34 | the `split('_', 2)[1]` of `enum_type` raises `IndexError` exactly when the name has no `_`; an `IndexError` from `lang_name` itself is carried in `T` |
| TypeNames.ItemTypeOfList | util.py:132-134 | `List_X` and `ListCN_X` give `lang_name(X)`, even when `X` holds `_` |
| TypeNames.KeyValueOfPair | util.py:137-142 | `P_K_V` with `P` and `K` free of `_` gives key `K` and value `V`, where `V` may hold `_` |
| TypeNames.KeyTypeOfEmptyKey | util.py:137-138 | with `cpp_name` as `lang_name`, `key_type` of `Map_` passes its own split, and `cpp_name` of the empty key raises `IndexError` |
| TypeNames.MapDecompose | util.py:137-142 | `Map_K_V` gives key `K` and value `V` |
| TypeNames.EntryListDecompose | util.py:137-142 | `EntryList_K_V` gives key `K` and value `V` |
| TypeNames.EnumTypeOfBase | util.py:33-34 | `Enum_B` with `B` free of `_` gives `lang_name(B)` |
| TypeNames.EnumTypeDropsSuffix | util.py:33-34 | `Enum_B_R` also gives `lang_name(B)`: text after a second `_` is dropped |
| TypeNames.EnumHasBase | util.py:29-34 | `enum_type` succeeds on every name `is_enum` accepts |
| MessageIds.Hex | util.py:57 | `'%x' % n` reads back as `n`; it has one digit exactly below 16 and at most two exactly below 256 |
| MessageIds.Hex02 | util.py:57 | `'%02x' % n` has at least two digits, reads back as `n`, and has exactly two exactly when `n < 256` |
| MessageIds.ParseHex | util.py:76 | `int(digits, 16)` for lower-case hex digits, most significant first |
| MessageIds.ParseHexBound | util.py:76 | `k` hex digits read as less than `16^k` |
| MessageIds.ParseHexLiteral | util.py:76 | `int(text, 16)` on a `0x`-prefixed literal with at least one digit reads the digits after the prefix |
| MessageIds.IdText | util.py:76 | the literal `id_fmt % (service, method, role)` is at least eight characters, starts with `0x`, and the rest are hex digits |
| MessageIds.ParseHexConcat | util.py:76 | `int(a + b, 16)` is `int(a, 16)` shifted by the digits of `b`, plus `int(b, 16)` |
| MessageIds.Width02IsLength | util.py:57 | `Width02(n)` is the number of digits `'%02x' % n` prints |
| MessageIds.Id | util.py:76-81 | the identifier of a message: its low byte is the role's low byte and it is at least the role; `IdReadsText` shows it is the value `int(id_fmt % (...), 16)` reads |
| MessageIds.IdReadsText | util.py:76 | the formatted identifier literal is `0x` followed by hex digits, and `int(..., 16)` reads it as `Id` |
| MessageIds.IdDigitsValue | util.py:76 | the six or more digits of the literal read as `Id` |
| MessageIds.IdArithmetic | util.py:76-81 | with every component below 256 the identifier is `s*65536 + m*256 + r`, below 2^24 |
| MessageIds.IdInjective | util.py:76-81 | with byte-sized components, equal identifiers mean equal components |
| MessageIds.IdExample | util.py:76-77 | service 5, method 3 gives 0x050300, 0x050301 and 0x050302 |
| MessageIds.IdRoleOverflowCollides | util.py:81 | role 256 does not wrap: `Id(1, 0, 256) == Id(16, 1, 0) == 0x100100` |
| Codecs.NumberEvents | util.py:80-81 | numbering events keeps their count and their fields |
| Codecs.WithIds | util.py:76-81 | enriching a method keeps its id, name, fields and the presence and number of its events |
| Codecs.WithIdsAll | util.py:75-81 | all method records of a service after the full loop: one enriched record per input record |
| Codecs.AssignEventIds | util.py:80-81 | the `for i in range(len(events))` loop gives event `i` the identifier of role `i + 2` and changes nothing else |
| Codecs.MethodWithIds | util.py:76-81 | the loop body sets the request, response and (when `events` is present) event identifiers |
| Codecs.FirstBadName | util.py:83 | the first method whose codec file name raises `IndexError`, that is whose service or method name is empty (`CodecFileName` fails exactly then); every method before it has non-empty names |
| Codecs.Visited | util.py:75-83 | the loop over a service reaches every method exactly when no method before the last has a bad name |
| Codecs.WithIdsUpTo | util.py:75-83 | the records of a service after the loop reached `n` of them: the first `n` enriched, the rest as they were, the count unchanged |
| Codecs.WithIdsUpToAll | util.py:75-81 | enriching every record of a service is the full pass over it |
| Codecs.AssignMethodIds | util.py:75-83 | the in-place loop over a service's method array: completes exactly when every codec file name can be built; the records up to and including the failing method are enriched and the rest are unchanged |
| Codecs.AssignServiceIds | util.py:68-83 | the body of the loop over services: returns false exactly when the service halts the pass; the service's records become `RecordsAfter` for a reached service |
| Codecs.Halts | util.py:68-83 | the pass stops inside a service exactly when it is not ignored and its `methods` is null or one of its codec file names raises `IndexError` |
| Codecs.HaltFrom | util.py:67-83 | the first service from index `n` on at which the pass stops, or the number of services; no service between `n` and it halts |
| Codecs.HaltIndex | util.py:67-83 | the first service that is not ignored and has null `methods` or a bad file name, and none before it |
| Codecs.RecordsAfter | util.py:67-83 | a service's records after the pass: unchanged when ignored or never reached, otherwise enriched as far as its own loop got |
| Codecs.PassedServiceComplete | util.py:67-83 | a non-ignored service the pass gets through has every method enriched |
| Codecs.AssignIds | util.py:67-83 | completes exactly when no service halts; ignored services and services after the halting one are unchanged; every other service is enriched as far as its loop got |
| Codecs.IdsOfMethod | util.py:76-81 | with byte-sized ids and at most 254 events: request `s*65536 + m*256`, response that plus 1, event `i` that plus `i + 2` |
| Codecs.WithIdsIdempotent | util.py:76-81 | running the pass again over enriched records changes nothing |
| Codecs.IdAtWithIds | util.py:76-81 | after the pass, the message with a given role holds `Id(s, m, role)` |
| Codecs.DistinctMessageIds | util.py:76-81 | two messages at different (method id, role) positions of one service get different identifiers, given byte-sized ids and at most 254 events |
| Codecs.IdsDistinctInService | util.py:75-81 | with distinct byte-sized method ids and at most 254 events per method, no two messages of a service share an identifier |
| ContentHash.HashedContent | util.py:186-191 | the written text is the content with every placeholder replaced by the digest of the original content; content without a placeholder is written unchanged |
| ContentHash.NoPatternLeft | util.py:191 | a replacement free of the marker character and at least as long as the pattern minus one leaves no pattern in the result |
| ContentHash.HexDigestLeavesNoPlaceholder | util.py:187-191 | a hex digest of at least 11 characters leaves no `!codec_hash!` in the written text |
| ContentHash.ShortDigestCanLeavePlaceholder | util.py:191 | a `!`-free digest that is too short can complete a placeholder from surrounding text |

## Left out

- File and directory I/O: `os.makedirs`, `open`, and `save_file`'s write and append modes. The content written to a file is modelled (`HashedContent`); the write itself is not.
- The header, source and footer files copied into the consolidated C++ output. They are file copies.
- `load_services` and `validate_services`. They wrap YAML parsing, the directory listing and the JSON-schema library. The model starts from service records that passed validation. Every method has a `request` and a `response` mapping, every event entry is a mapping, and every id is a non-negative integer. Records that break this make the pass raise before any case the model covers: `KeyError` for a missing `request`, `TypeError` for `response: null`, a null event or a non-integer id. These exceptions are not modelled.
- `generate_custom_codecs`. It is not part of the identifier pass. It renders the custom-type templates, builds file names from the type name (`lower()` plus `_codec`, or `capital` of the name plus `Codec.` and the extension) and writes them with `save_file`.
- Jinja2 environment setup and rendering, and the `NotImplementedError` skip around it. Whether rendering fails depends on templates and type tables that are not part of this model. The pass model stops at the file-name step and treats rendering as having no effect on the records.
- The `print` calls for ignored services and null `methods`. They are logging only.
- The md5 digest. It is a function parameter of `HashedContent`.
- The `binary`, `java` and `cpp` modules. Their override tables are `set<string>` parameters, and `cpp_ignore_service_list` is the `ignore` parameter.
- The `lang_name` that the templates pass to `item_type`, `key_type`, `value_type` and `enum_type` is util.py's own `java_name` or `cpp_name` (util.py:235-238). These are modelled as `JavaName` and `CppName`. The decomposers take `lang_name` as a function parameter, so an `IndexError` from it is part of their result type (`KeyTypeOfEmptyKey`).
- The configuration dictionaries at the end of `util.py`. The pass is fixed to C++ as the code hard-wires it, so `Extension` is `"cpp"`.
- The Java integration test of the repository. It drives live cluster instances and has no sequential contract.
- Names.Capital: case mapping is ASCII only. Python's `upper`, `lower` and `capitalize` also map non-ASCII letters.
- Names.ParamName: ASCII case mapping only, as for `Capital`.
- PyString.Upper: ASCII case mapping only.
- PyString.UpperChar: ASCII case mapping only; Python's `capitalize` and `upper` also map non-ASCII letters.
- PyString.LowerChar: ASCII case mapping only; Python's `lower` also maps non-ASCII letters.
- Codecs.AssignMethodIds: `completed` is true exactly when every codec file name can be built only if rendering and `save_file` raise nothing but `NotImplementedError`. A Jinja2 template that calls `capital`, `cpp_name`, `key_type`, `value_type` or `param_name` on a name they reject, or a failing write, also ends the pass, and the model does not capture that.
- Codecs.AssignIds: the halting point `HaltIndex` and `completed` rest on the same premise as `AssignMethodIds`. Any other exception from rendering or writing stops the pass earlier than the model says.
- Codecs.AssignIds: requires different services to hold different method arrays (`DistinctRecords`). `load_services` parses each service from its own file, so this always holds. YAML anchors inside one document can share a single request, response or events mapping between methods of that service. Python then writes both identifiers into the one shared mapping, and the last write wins for both methods. The model holds messages as values, so each method keeps its own identifier; such shared mappings are not modelled.
- MessageIds.Id: service, method and role ids are natural numbers. A negative id would format with a `-` sign and make `int(..., 16)` fail; that path is not modelled.
