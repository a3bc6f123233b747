/**
 * Name transliteration helpers of util.py: `capital`, `param_name`,
 * `java_name`/`cpp_name`, `to_upper_snake_case`, and the per-method codec
 * file name built in `generate_codecs`.
 */
module Names {
  import opened Outcomes
  import opened PyString

  /** `capital(txt)`: upper-cases the first character and keeps the rest;
      raises `IndexError` on the empty string. */
  function Capital(txt: string): (r: Outcome<string>)
    ensures r.Ok? <==> txt != []
    ensures r.Ok? ==> |r.value| == |txt| && r.value[0] == UpperChar(txt[0]) && !IsLower(r.value[0])
    ensures r.Ok? ==> forall k :: 1 <= k < |txt| ==> r.value[k] == txt[k]
  {
    if txt == [] then IndexError else Ok([UpperChar(txt[0])] + txt[1..])
  }

  /** `param_name(type_name)`: lower-cases the first character and keeps the
      rest; raises `IndexError` on the empty string. */
  function ParamName(name: string): (r: Outcome<string>)
    ensures r.Ok? <==> name != []
    ensures r.Ok? ==> |r.value| == |name| && r.value[0] == LowerChar(name[0]) && !IsUpper(r.value[0])
    ensures r.Ok? ==> forall k :: 1 <= k < |name| ==> r.value[k] == name[k]
  {
    if name == [] then IndexError else Ok([LowerChar(name[0])] + name[1..])
  }

  /** Capitalising twice is capitalising once. */
  lemma CapitalIdempotent(txt: string)
    requires txt != []
    ensures Capital(Capital(txt).value) == Capital(txt)
  {
  }

  /** `param_name` undoes `capital` on a name that starts with a lower-case
      letter, and `capital` undoes `param_name` on one that starts with a capital. */
  lemma ParamNameCapitalRoundTrip(name: string)
    requires name != []
    ensures IsLower(name[0]) ==> ParamName(Capital(name).value) == Ok(name)
    ensures IsUpper(name[0]) ==> Capital(ParamName(name).value) == Ok(name)
  {
    var c := Capital(name).value;
    var p := ParamName(name).value;
    assert c == [c[0]] + name[1..] && p == [p[0]] + name[1..];
    assert name == [name[0]] + name[1..];
  }

  /** `name.replace("(", "").replace(")", "")` */
  function StripParens(name: string): (r: string)
    ensures '(' !in r && ')' !in r
    ensures '(' !in name && ')' !in name ==> r == name
    ensures forall c :: c != '(' && c != ')' ==> multiset(r)[c] == multiset(name)[c]
  {
    if name == [] then ""
    else
      assert name == [name[0]] + name[1..];
      (if name[0] == '(' || name[0] == ')' then "" else [name[0]]) + StripParens(name[1..])
  }

  /** Removing parentheses works piecewise, so the kept characters stay in order. */
  lemma {:induction false} StripParensAppend(a: string, b: string)
    ensures StripParens(a + b) == StripParens(a) + StripParens(b)
    decreases |a|
  {
    if a == [] {
      assert a + b == b;
    } else {
      assert (a + b)[1..] == a[1..] + b;
      StripParensAppend(a[1..], b);
    }
  }

  /** `StripParens` is the two `str.replace` calls of `java_name`. */
  lemma {:induction false} StripParensIsReplace(name: string)
    ensures StripParens(name) == Replace(Replace(name, "(", ""), ")", "")
    decreases |name|
  {
    if name != [] {
      var t := name[1..];
      StripParensIsReplace(t);
      var x := Replace(t, "(", "");
      if name[0] == '(' {
        ReplaceAtMatch(name, "(", "");
        assert Replace(name, "(", "") == x;
      } else {
        ReplaceAtMismatch(name, "(", "");
        var y := [name[0]] + x;
        assert Replace(name, "(", "") == y;
        assert y[1..] == x;
        if name[0] == ')' {
          ReplaceAtMatch(y, ")", "");
        } else {
          ReplaceAtMismatch(y, ")", "");
        }
      }
    }
  }

  /** No character that `java_name` removes or splits on. */
  predicate NoNamePunctuation(s: string) {
    '(' !in s && ')' !in s && '_' !in s
  }

  /** `"".join([capital(part) for part in parts])`: raises `IndexError` at the
      first empty part. */
  function CamelJoin(parts: seq<string>): (r: Outcome<string>)
    ensures r.Ok? <==> AllNonEmpty(parts)
    ensures r.Ok? && (forall k :: 0 <= k < |parts| ==> NoNamePunctuation(parts[k])) ==>
              NoNamePunctuation(r.value)
  {
    if parts == [] then Ok("")
    else match Capital(parts[0])
      case IndexError => IndexError
      case Ok(head) =>
        match CamelJoin(parts[1..])
        case IndexError => IndexError
        case Ok(tail) =>
          assert forall k :: 1 <= k < |parts| ==> parts[1..][k - 1] == parts[k];
          assert NoNamePunctuation(parts[0]) ==> head == [UpperChar(parts[0][0])] + parts[0][1..];
          Ok(head + tail)
  }

  /** A `sep`-separated word list with no empty word: not empty, does not start
      or end with `sep`, and has no two `sep` in a row. */
  predicate WellSeparated(s: string, sep: char) {
    s != [] && s[0] != sep && s[|s| - 1] != sep &&
    forall k :: 0 <= k < |s| - 1 ==> !(s[k] == sep && s[k + 1] == sep)
  }

  /** Splitting at the first `sep`, at index `i`: `s` is well separated
      exactly when the first part is non-empty and the rest is well separated. */
  lemma WellSeparatedStep(s: string, sep: char, i: nat)
    requires i < |s| && s[i] == sep
    requires forall j :: 0 <= j < i ==> s[j] != sep
    ensures WellSeparated(s, sep) <==> i > 0 && WellSeparated(s[i + 1..], sep)
  {
    var rest := s[i + 1..];
    if WellSeparated(s, sep) {
      assert rest != [] && rest[0] != sep;
      forall k | 0 <= k < |rest| - 1 ensures !(rest[k] == sep && rest[k + 1] == sep) {
        assert rest[k] == s[i + 1 + k] && rest[k + 1] == s[i + 1 + k + 1];
      }
    }
    if i > 0 && WellSeparated(rest, sep) {
      assert s[|s| - 1] == rest[|rest| - 1];
      forall k | 0 <= k < |s| - 1 ensures !(s[k] == sep && s[k + 1] == sep) {
        if k > i {
          assert s[k] == rest[k - i - 1] && s[k + 1] == rest[k - i];
        } else if k == i {
          assert s[k + 1] == rest[0];
        }
      }
    }
  }

  predicate AllNonEmpty(parts: seq<string>) {
    forall k :: 0 <= k < |parts| ==> parts[k] != []
  }

  /** A list with a head is all non-empty when its head and its tail are. */
  lemma AllNonEmptyCons(p: string, tail: seq<string>)
    ensures AllNonEmpty([p] + tail) <==> p != [] && AllNonEmpty(tail)
  {
    var parts := [p] + tail;
    assert forall k :: 0 <= k < |tail| ==> tail[k] == parts[k + 1];
    assert parts[0] == p;
  }

  /** Every part of `s.split(sep)` is non-empty exactly when `s` is well separated. */
  lemma {:induction false} SplitPartsNonEmpty(s: string, sep: char)
    ensures AllNonEmpty(Split(s, sep)) <==> WellSeparated(s, sep)
    decreases |s|
  {
    var i := IndexOf(s, sep);
    if i < |s| {
      SplitAtFirst(s, sep);
      SplitPartsNonEmpty(s[i + 1..], sep);
      AllNonEmptyCons(s[..i], Split(s[i + 1..], sep));
      WellSeparatedStep(s, sep, i);
    } else {
      assert Split(s, sep) == [s];
    }
  }

  /** A character missing from `s` is missing from every part of its split. */
  lemma {:induction false} SplitKeepsAbsent(s: string, sep: char, c: char)
    requires c !in s
    ensures forall k :: 0 <= k < |Split(s, sep)| ==> c !in Split(s, sep)[k]
    decreases |s|
  {
    var i := IndexOf(s, sep);
    if i < |s| {
      var rest := s[i + 1..];
      assert c !in rest && c !in s[..i];
      SplitKeepsAbsent(rest, sep, c);
      assert Split(s, sep) == [s[..i]] + Split(rest, sep);
    }
  }

  /** `java_name(type_name)`: drops the parentheses, splits on `_` and
      capitalises every part; it returns exactly when the stripped name is a
      well-separated word list, and the result holds no `(`, `)` or `_`. */
  function JavaName(name: string): (r: Outcome<string>)
    ensures r.Ok? <==> WellSeparated(StripParens(name), '_')
    ensures r.Ok? ==> NoNamePunctuation(r.value)
  {
    var stripped := StripParens(name);
    var parts := Split(stripped, '_');
    SplitPartsNonEmpty(stripped, '_');
    SplitKeepsAbsent(stripped, '_', '(');
    SplitKeepsAbsent(stripped, '_', ')');
    CamelJoin(parts)
  }

  /** `cpp_name(type_name)`: the same transliteration as `java_name`. */
  function CppName(name: string): (r: Outcome<string>)
    ensures r == JavaName(name)
  {
    var parts := Split(StripParens(name), '_');
    CamelJoin(parts)
  }

  /** A single plain word is just capitalised. */
  lemma JavaNameOfWord(word: string)
    requires word != [] && NoNamePunctuation(word)
    ensures JavaName(word) == Capital(word)
  {
    assert StripParens(word) == word;
    assert IndexOf(word, '_') == |word|;
    assert Split(word, '_') == [word];
    assert [word][1..] == [];
    assert CamelJoin([word]) == Ok(Capital(word).value + "");
    assert Capital(word).value + "" == Capital(word).value;
  }

  /** Capitalising a non-empty head in front of parts that join. */
  lemma CamelJoinCons(p: string, rest: seq<string>)
    requires p != [] && CamelJoin(rest).Ok?
    ensures CamelJoin([p] + rest) == Ok(Capital(p).value + CamelJoin(rest).value)
  {
    assert ([p] + rest)[1..] == rest;
  }

  /** Two plain words joined by `_` become their capitalised concatenation. */
  lemma JavaNameOfPair(a: string, b: string)
    requires a != [] && NoNamePunctuation(a)
    requires b != [] && NoNamePunctuation(b)
    ensures JavaName(a + "_" + b) == Ok(Capital(a).value + Capital(b).value)
  {
    var s := a + "_" + b;
    assert '(' !in s && ')' !in s;
    assert Join([a, b], '_') == s by {
      assert [a, b][1..] == [b];
    }
    SplitJoin([a, b], '_');
    assert JavaName(s) == CamelJoin([a, b]);
    CamelJoinCons(b, []);
    assert [b] + [] == [b];
    assert Capital(b).value + "" == Capital(b).value;
    CamelJoinCons(a, [b]);
    assert [a] + [b] == [a, b];
  }

  /** The capitalised parts, `[capital(part) for part in parts]`. */
  function CapitalParts(parts: seq<string>): (r: seq<string>)
    requires AllNonEmpty(parts)
    ensures |r| == |parts|
    ensures forall k :: 0 <= k < |r| ==> Ok(r[k]) == Capital(parts[k])
  {
    if parts == [] then []
    else
      assert forall k :: 0 <= k < |parts| - 1 ==> parts[1..][k] == parts[k + 1];
      [Capital(parts[0]).value] + CapitalParts(parts[1..])
  }

  /** Joining non-empty parts is concatenating their capitalisations. */
  lemma {:induction false} CamelJoinConcat(parts: seq<string>)
    requires AllNonEmpty(parts)
    ensures CamelJoin(parts) == Ok(Concat(CapitalParts(parts)))
  {
    if parts != [] {
      var rest := parts[1..];
      assert forall k :: 0 <= k < |rest| ==> rest[k] == parts[k + 1];
      CamelJoinConcat(rest);
      CamelJoinCons(parts[0], rest);
      assert [parts[0]] + rest == parts;
    }
  }

  /** A character in no part, other than the separator, is not in the join. */
  lemma {:induction false} JoinAvoids(parts: seq<string>, sep: char, c: char)
    requires c != sep
    requires forall k :: 0 <= k < |parts| ==> c !in parts[k]
    ensures c !in Join(parts, sep)
  {
    if |parts| > 1 {
      JoinAvoids(parts[1..], sep, c);
    }
  }

  /** Plain words joined by `_` become the concatenation of their
      capitalisations, for any number of words. */
  lemma JavaNameOfWords(parts: seq<string>)
    requires |parts| >= 1 && AllNonEmpty(parts)
    requires forall k :: 0 <= k < |parts| ==> NoNamePunctuation(parts[k])
    ensures JavaName(Join(parts, '_')) == Ok(Concat(CapitalParts(parts)))
  {
    var s := Join(parts, '_');
    JoinAvoids(parts, '_', '(');
    JoinAvoids(parts, '_', ')');
    SplitJoin(parts, '_');
    assert JavaName(s) == CamelJoin(parts);
    CamelJoinConcat(parts);
  }

  /** A type name whose text without parentheses is such a word list, for
      example `List_(Data)` or `Map_(String)_Data`, gives the same result. */
  lemma JavaNameWithParens(name: string, parts: seq<string>)
    requires StripParens(name) == Join(parts, '_')
    requires |parts| >= 1 && AllNonEmpty(parts)
    requires forall k :: 0 <= k < |parts| ==> NoNamePunctuation(parts[k])
    ensures JavaName(name) == Ok(Concat(CapitalParts(parts)))
  {
    JavaNameOfWords(parts);
    assert StripParens(Join(parts, '_')) == Join(parts, '_');
  }

  /** One step of `StripParens`: the first character is dropped exactly when
      it is a parenthesis. */
  lemma StripParensCons(c: char, t: string)
    ensures StripParens([c] + t) == (if c == '(' || c == ')' then "" else [c]) + StripParens(t)
  {
    assert ([c] + t)[1..] == t;
  }

  /** A character other than a parenthesis survives in front of a closing
      parenthesis, which is dropped. */
  lemma StripParensClose(b: char)
    requires b != '(' && b != ')'
    ensures StripParens([b, ')']) == [b]
  {
    StripParensCons(')', []);
    assert [')'] + [] == [')'];
    StripParensCons(b, [')']);
    assert [b, ')'] == [b] + [')'];
  }

  /** Both parentheses around a single character are dropped. */
  lemma StripParensAroundChar(b: char)
    requires b != '(' && b != ')'
    ensures StripParens(['(', b, ')']) == [b]
  {
    StripParensClose(b);
    StripParensCons('(', [b, ')']);
    assert ['(', b, ')'] == ['('] + [b, ')'];
  }

  /** A call suffix `a(b)` loses its parentheses and keeps `a` and `b`. */
  lemma StripParensAroundOne(a: char, b: char)
    requires a != '(' && a != ')' && b != '(' && b != ')'
    ensures StripParens([a, '(', b, ')']) == [a, b]
  {
    StripParensAroundChar(b);
    StripParensCons(a, ['(', b, ')']);
    assert [a, '(', b, ')'] == [a] + ['(', b, ')'];
  }

  /** `"a(b)".replace("(", "").replace(")", "")` is `ab`. */
  lemma StripParensExample()
    ensures StripParens("a(b)") == "ab"
  {
    StripParensAroundOne('a', 'b');
    assert "a(b)" == ['a', '(', 'b', ')'];
  }

  /** The regular expression of `to_upper_snake_case` matches the capital at
      index `i`: it is not the first character, and either follows a
      lower-case letter or digit, or is followed by a lower-case letter. */
  predicate BreakBefore(s: string, i: nat)
    requires i < |s|
  {
    0 < i && IsUpper(s[i]) &&
    (IsLower(s[i - 1]) || IsDigit(s[i - 1]) || (i + 1 < |s| && IsLower(s[i + 1])))
  }

  /** The substitution step of `to_upper_snake_case`, from index `i` on: an
      `_` goes before every character the expression matches. */
  function Underscored(s: string, i: nat): string
    requires i <= |s|
    decreases |s| - i
  {
    if i == |s| then ""
    else (if BreakBefore(s, i) then "_" + [s[i]] else [s[i]]) + Underscored(s, i + 1)
  }

  /** `to_upper_snake_case(camel_case_str)`: the result holds no lower-case letter. */
  function ToUpperSnakeCase(s: string): (r: string)
    ensures |r| >= |s|
    ensures forall k :: 0 <= k < |r| ==> !IsLower(r[k])
  {
    UnderscoredLength(s, 0);
    Upper(Underscored(s, 0))
  }

  lemma {:induction false} UnderscoredLength(s: string, i: nat)
    requires i <= |s|
    ensures |Underscored(s, i)| >= |s| - i
    decreases |s| - i
  {
    if i < |s| {
      UnderscoredLength(s, i + 1);
    }
  }

  /** `s` with every `_` deleted. */
  function DropUnderscores(s: string): string {
    if s == [] then "" else (if s[0] == '_' then "" else [s[0]]) + DropUnderscores(s[1..])
  }

  lemma {:induction false} DropUnderscoresAppend(a: string, b: string)
    ensures DropUnderscores(a + b) == DropUnderscores(a) + DropUnderscores(b)
    decreases |a|
  {
    if a != [] {
      assert (a + b)[1..] == a[1..] + b;
      DropUnderscoresAppend(a[1..], b);
    } else {
      assert a + b == b;
    }
  }

  lemma {:induction false} DropUnderscoresUpper(s: string)
    ensures DropUnderscores(Upper(s)) == Upper(DropUnderscores(s))
    decreases |s|
  {
    if s != [] {
      assert Upper(s)[1..] == Upper(s[1..]);
      DropUnderscoresUpper(s[1..]);
      var head := if s[0] == '_' then "" else [s[0]];
      UpperAppend(head, DropUnderscores(s[1..]));
    }
  }

  lemma {:induction false} UpperAppend(a: string, b: string)
    ensures Upper(a + b) == Upper(a) + Upper(b)
  {
  }

  lemma {:induction false} DropUnderscoredFrom(s: string, i: nat)
    requires i <= |s|
    ensures DropUnderscores(Underscored(s, i)) == DropUnderscores(s[i..])
    decreases |s| - i
  {
    if i < |s| {
      DropUnderscoredFrom(s, i + 1);
      var head := if BreakBefore(s, i) then "_" + [s[i]] else [s[i]];
      DropUnderscoresAppend(head, Underscored(s, i + 1));
      assert s[i..] == [s[i]] + s[i + 1..];
      DropUnderscoresAppend([s[i]], s[i + 1..]);
      if BreakBefore(s, i) {
        DropUnderscoresAppend("_", [s[i]]);
      }
    }
  }

  lemma {:induction false} DropUnderscoresNone(s: string)
    requires '_' !in s
    ensures DropUnderscores(s) == s
    decreases |s|
  {
    if s != [] {
      DropUnderscoresNone(s[1..]);
    }
  }

  /** Deleting every `_` from the snake-case name gives the upper-cased input
      with its own `_` deleted; for an input without `_`, exactly the
      upper-cased input. */
  lemma SnakeCaseDropsToUpper(s: string)
    ensures DropUnderscores(ToUpperSnakeCase(s)) == Upper(DropUnderscores(s))
    ensures '_' !in s ==> DropUnderscores(ToUpperSnakeCase(s)) == Upper(s)
  {
    DropUnderscoresUpper(Underscored(s, 0));
    DropUnderscoredFrom(s, 0);
    assert s[0..] == s;
    if '_' !in s {
      DropUnderscoresNone(s);
    }
  }

  /** `t` is `r` with some of its `c` characters deleted: `r` is `t` with
      copies of `c` inserted, and every character of `t` kept in order. */
  predicate InsertsOnly(r: string, t: string, c: char)
    decreases |r|
  {
    if r == [] then t == []
    else (r[0] == c && InsertsOnly(r[1..], t, c)) ||
         (t != [] && r[0] == t[0] && InsertsOnly(r[1..], t[1..], c))
  }

  /** The substitution step only inserts `_`: the rest of the input is kept, in order. */
  lemma {:induction false} UnderscoredInserts(s: string, i: nat)
    requires i <= |s|
    ensures InsertsOnly(Underscored(s, i), s[i..], '_')
    decreases |s| - i
  {
    if i < |s| {
      UnderscoredInserts(s, i + 1);
      var rest := Underscored(s, i + 1);
      var kept := [s[i]] + rest;
      assert s[i..][0] == s[i] && s[i..][1..] == s[i + 1..];
      assert kept[0] == s[i] && kept[1..] == rest;
      assert InsertsOnly(kept, s[i..], '_');
      if BreakBefore(s, i) {
        var r := "_" + [s[i]] + rest;
        assert r[0] == '_' && r[1..] == kept;
      }
    }
  }

  /** Upper-casing keeps an insertion of `_`, since `_` has no case. */
  lemma {:induction false} UpperInserts(r: string, t: string)
    requires InsertsOnly(r, t, '_')
    ensures InsertsOnly(Upper(r), Upper(t), '_')
    decreases |r|
  {
    if r != [] {
      var ur := Upper(r);
      assert ur[0] == UpperChar(r[0]) && ur[1..] == Upper(r[1..]);
      if r[0] == '_' && InsertsOnly(r[1..], t, '_') {
        UpperInserts(r[1..], t);
      } else {
        UpperInserts(r[1..], t[1..]);
        var ut := Upper(t);
        assert ut[0] == UpperChar(t[0]) && ut[1..] == Upper(t[1..]);
      }
    }
  }

  /** `to_upper_snake_case` only inserts `_`: deleting exactly the inserted
      ones gives the upper-cased input, with the input's own `_` in place. */
  lemma SnakeCaseInsertsOnly(s: string)
    ensures InsertsOnly(ToUpperSnakeCase(s), Upper(s), '_')
  {
    UnderscoredInserts(s, 0);
    assert s[0..] == s;
    UpperInserts(Underscored(s, 0), s);
  }

  /** `"AB__"` is not `"A_B"` with `_` inserted: the input's `_` must stay
      between `A` and `B`. */
  lemma InsertsOnlyKeepsOrder()
    ensures InsertsOnly("A__B", "A_B", '_')
    ensures !InsertsOnly("AB__", "A_B", '_')
  {
    assert "A__B"[1..] == "__B" && "__B"[1..] == "_B" && "_B"[1..] == "B";
    assert "A_B"[1..] == "_B" && "_B"[1..] == "B" && "B"[1..] == "";
    assert InsertsOnly("B", "B", '_');
    assert InsertsOnly("_B", "_B", '_');
    assert InsertsOnly("__B", "_B", '_');
    assert "AB__"[1..] == "B__";
    assert !InsertsOnly("B__", "_B", '_');
  }

  /** No `_` is inserted in front of the first character. */
  lemma SnakeCaseFirstChar(s: string)
    requires s != []
    ensures ToUpperSnakeCase(s)[0] == UpperChar(s[0])
  {
    assert Underscored(s, 0)[0] == s[0];
  }

  lemma {:induction false} UnderscoredNoCapitals(s: string, i: nat)
    requires i <= |s|
    requires forall k :: 0 <= k < |s| ==> !IsUpper(s[k])
    ensures Underscored(s, i) == s[i..]
    decreases |s| - i
  {
    if i < |s| {
      UnderscoredNoCapitals(s, i + 1);
      assert s[i..] == [s[i]] + s[i + 1..];
    }
  }

  /** A name with no capital letter gains no `_`: it is only upper-cased. */
  lemma SnakeCaseOfLowerCase(s: string)
    requires forall k :: 0 <= k < |s| ==> !IsUpper(s[k])
    ensures ToUpperSnakeCase(s) == Upper(s)
  {
    UnderscoredNoCapitals(s, 0);
    assert s[0..] == s;
  }

  /** Worked example: a camel-case method name. */
  lemma SnakeCaseOfCamelCase()
    ensures ToUpperSnakeCase("putAll") == "PUT_ALL"
  {
    UnderscoredCamelCase();
    UpperOfCamelCase();
  }

  lemma UnderscoredCamelCase()
    ensures Underscored("putAll", 0) == "put_All"
  {
    var s := "putAll";
    assert Underscored(s, 6) == "";
    assert Underscored(s, 5) == "l";
    assert Underscored(s, 4) == "ll";
    assert BreakBefore(s, 3);
    assert Underscored(s, 3) == "_All";
    assert Underscored(s, 2) == "t_All";
    assert Underscored(s, 1) == "ut_All";
  }

  lemma UpperOfCamelCase()
    ensures Upper("put_All") == "PUT_ALL"
  {
    var s := "put_All";
    var t := "PUT_ALL";
    forall k | 0 <= k < |s| ensures UpperChar(s[k]) == t[k] {
      if k == 3 || k == 4 {
        assert s[k] == t[k] && !IsLower(s[k]);
      } else {
        assert IsLower(s[k]) && t[k] as int == s[k] as int - 32;
      }
    }
    UpperPointwise(s, t);
  }

  /** Worked example: an acronym followed by a word breaks before the word. */
  lemma SnakeCaseOfAcronym()
    ensures ToUpperSnakeCase("HTTPServer") == "HTTP_SERVER"
  {
    var s := "HTTPServer";
    assert Underscored(s, 10) == "";
    assert Underscored(s, 9) == "r";
    assert Underscored(s, 8) == "er";
    assert Underscored(s, 7) == "ver";
    assert Underscored(s, 6) == "rver";
    assert Underscored(s, 5) == "erver";
    assert BreakBefore(s, 4);
    assert Underscored(s, 4) == "_Server";
    assert !BreakBefore(s, 3);
    assert Underscored(s, 3) == "P_Server";
    assert !BreakBefore(s, 2);
    assert Underscored(s, 2) == "TP_Server";
    assert !BreakBefore(s, 1);
    assert Underscored(s, 1) == "TTP_Server";
    assert Underscored(s, 0) == "HTTP_Server";
    UpperOfAcronym();
  }

  lemma UpperOfAcronym()
    ensures Upper("HTTP_Server") == "HTTP_SERVER"
  {
    var s := "HTTP_Server";
    var t := "HTTP_SERVER";
    forall k | 0 <= k < |s| ensures UpperChar(s[k]) == t[k] {
      if k < 6 {
        assert s[k] == t[k] && !IsLower(s[k]);
      } else {
        assert IsLower(s[k]) && t[k] as int == s[k] as int - 32;
      }
    }
    UpperPointwise(s, t);
  }

  /** `Upper` is determined character by character. */
  lemma UpperPointwise(s: string, t: string)
    requires |s| == |t|
    requires forall k :: 0 <= k < |s| ==> UpperChar(s[k]) == t[k]
    ensures Upper(s) == t
  {
    var u := Upper(s);
    assert forall k :: 0 <= k < |s| ==> u[k] == t[k];
  }

  /** The per-method file name of `generate_codecs`:
      `capital(service) + capital(method) + 'Codec.' + extension`;
      raises `IndexError` when either name is empty. */
  function CodecFileName(serviceName: string, methodName: string, extension: string): (r: Outcome<string>)
    ensures r.Ok? <==> serviceName != [] && methodName != []
    ensures r.Ok? ==> |r.value| == |serviceName| + |methodName| + 6 + |extension|
    ensures r.Ok? ==> forall k :: 0 <= k < |serviceName| ==> r.value[k] == Capital(serviceName).value[k]
    ensures r.Ok? ==> forall k :: 0 <= k < |methodName| ==>
              r.value[|serviceName| + k] == Capital(methodName).value[k]
    ensures r.Ok? ==> r.value[|serviceName| + |methodName|..] == "Codec." + extension
  {
    match Capital(serviceName)
    case IndexError => IndexError
    case Ok(s) =>
      match Capital(methodName)
      case IndexError => IndexError
      case Ok(m) => Ok(s + m + "Codec." + extension)
  }
}
