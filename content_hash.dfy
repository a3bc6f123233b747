/**
 * The text transform of `save_file`: the digest of the rendered content is
 * written in place of every `!codec_hash!` placeholder. The digest function
 * (an md5 hex digest of the UTF-8 bytes) is a parameter of the model.
 */
module ContentHash {
  import opened PyString
  import MessageIds

  const Placeholder := "!codec_hash!"

  /** What `save_file` writes for `content`: every placeholder replaced by the
      digest of `content` as rendered, before any replacement. */
  function HashedContent(content: string, digest: string -> string): (r: string)
    ensures !Contains(content, Placeholder) ==> r == content
  {
    Replace(content, Placeholder, digest(content))
  }

  /** A pattern that starts and ends with the same marker character, and a
      replacement free of that marker that is at least as long as the
      pattern without its first character. */
  predicate MarkerSafe(pat: string, rep: string) {
    |pat| >= 2 && pat[0] == pat[|pat| - 1] && pat[0] !in rep && |rep| >= |pat| - 1
  }

  /** If the replaced text starts with a proper suffix of the pattern, the
      original text already did: a replacement cannot supply the closing marker. */
  lemma {:induction false} SuffixComesFromSource(t: string, pat: string, rep: string, j: nat)
    requires MarkerSafe(pat, rep)
    requires 1 <= j <= |pat|
    ensures StartsWith(Replace(t, pat, rep), pat[j..]) ==> StartsWith(t, pat[j..])
    decreases |t|
  {
    if |t| >= |pat| && StartsWith(Replace(t, pat, rep), pat[j..]) && j < |pat| {
      // A text that starts with the pattern gives one that starts with `rep`,
      // which lacks the marker that ends `pat[j..]`.
      if t[..|pat|] != pat {
        SuffixComesFromSource(t[1..], pat, rep, j + 1);
        SuffixStep(t, pat, rep, j);
      }
    }
  }

  /** One step of `SuffixComesFromSource`: past a copied first character. */
  lemma SuffixStep(t: string, pat: string, rep: string, j: nat)
    requires MarkerSafe(pat, rep)
    requires 1 <= j < |pat| <= |t| && t[..|pat|] != pat
    requires StartsWith(Replace(t[1..], pat, rep), pat[j + 1..]) ==> StartsWith(t[1..], pat[j + 1..])
    ensures StartsWith(Replace(t, pat, rep), pat[j..]) ==> StartsWith(t, pat[j..])
  {
    ReplaceAtMismatch(t, pat, rep);
    assert pat[j + 1..] == pat[j..][1..];
    PrefixPastHead(t, Replace(t[1..], pat, rep), pat[j..]);
  }

  /** A text and its copy that share a first character share a prefix `q`
      when their tails share `q` without its first character. */
  lemma PrefixPastHead(t: string, rest: string, q: string)
    requires |t| >= |q| >= 1
    requires StartsWith(rest, q[1..]) ==> StartsWith(t[1..], q[1..])
    ensures StartsWith([t[0]] + rest, q) ==> StartsWith(t, q)
  {
    var r := [t[0]] + rest;
    if StartsWith(r, q) {
      assert rest[..|q| - 1] == r[1..|q|];
      assert t[..|q|] == [t[0]] + t[1..][..|q| - 1];
    }
  }

  /** No pattern starts inside a replacement, which lacks the marker. */
  lemma NoPatternAfterReplacement(rep: string, rest: string, pat: string)
    requires MarkerSafe(pat, rep)
    requires !Contains(rest, pat)
    ensures !Contains(rep + rest, pat)
  {
    var r := rep + rest;
    forall i: nat | i <= |r| ensures !OccursAt(r, pat, i) {
      if OccursAt(r, pat, i) {
        // An occurrence at `i < |rep|` would put the marker inside `rep`.
        if i >= |rep| {
          assert rest[i - |rep|..i - |rep| + |pat|] == r[i..i + |pat|];
          assert OccursAt(rest, pat, i - |rep|);
        }
      }
    }
  }

  /** The copied first character cannot start a pattern: the rest of the
      pattern would have to come from the source right after it. */
  lemma NoPatternAtCopiedHead(s: string, pat: string, rep: string)
    requires MarkerSafe(pat, rep)
    requires |s| >= |pat| && s[..|pat|] != pat
    ensures !OccursAt([s[0]] + Replace(s[1..], pat, rep), pat, 0)
  {
    var rest := Replace(s[1..], pat, rep);
    var r := [s[0]] + rest;
    SuffixComesFromSource(s[1..], pat, rep, 1);
  }

  /** A character put in front of a text without the pattern starts the only
      place the pattern could then occur. */
  lemma NoPatternAfterChar(c: char, rest: string, pat: string)
    requires !Contains(rest, pat)
    requires !OccursAt([c] + rest, pat, 0)
    ensures !Contains([c] + rest, pat)
  {
    var r := [c] + rest;
    forall i: nat | 1 <= i <= |r| ensures !OccursAt(r, pat, i) {
      if OccursAt(r, pat, i) {
        assert rest[i - 1..i - 1 + |pat|] == r[i..i + |pat|];
        assert OccursAt(rest, pat, i - 1);
      }
    }
  }

  /** With a marker-safe replacement no pattern is left in the result: none
      starts inside an inserted replacement, and none can straddle one. */
  lemma {:induction false} NoPatternLeft(s: string, pat: string, rep: string)
    requires MarkerSafe(pat, rep)
    ensures !Contains(Replace(s, pat, rep), pat)
    decreases |s|
  {
    if |s| >= |pat| {
      if s[..|pat|] == pat {
        NoPatternLeft(s[|pat|..], pat, rep);
        NoPatternAfterReplacement(rep, Replace(s[|pat|..], pat, rep), pat);
      } else {
        NoPatternLeft(s[1..], pat, rep);
        NoPatternAtCopiedHead(s, pat, rep);
        NoPatternAfterChar(s[0], Replace(s[1..], pat, rep), pat);
      }
    }
  }

  /** A digest of lower-case hex digits that is at least 11 characters long
      (an md5 hex digest has 32) leaves no placeholder in the written text. */
  lemma HexDigestLeavesNoPlaceholder(content: string, digest: string -> string)
    requires MessageIds.IsHex(digest(content)) && |digest(content)| >= 11
    ensures !Contains(HashedContent(content, digest), Placeholder)
  {
    NoPatternLeft(content, Placeholder, digest(content));
  }

  /** Lacking `!` alone is not enough: a short replacement can complete a
      placeholder from the text around it. */
  lemma ShortDigestCanLeavePlaceholder()
    ensures Replace("!!codec_hash!!", Placeholder, "codec_hash") == "!codec_hash!"
    ensures Contains("!codec_hash!", Placeholder)
  {
    var s := "!!codec_hash!!";
    assert s[1] == '!' && Placeholder[1] == 'c';
    assert s[..|Placeholder|][1] != Placeholder[1];
    assert s[..|Placeholder|] != Placeholder;
    ReplaceAtMismatch(s, Placeholder, "codec_hash");
    assert s[1..] == Placeholder + "!";
    ReplaceTailPlaceholder();
    var r := [s[0]] + Replace(s[1..], Placeholder, "codec_hash");
    assert r == "!" + "codec_hash!";
    PlaceholderAtStart("!codec_hash!");
  }

  /** A text that starts with the placeholder contains it. */
  lemma PlaceholderAtStart(s: string)
    requires StartsWith(s, Placeholder)
    ensures Contains(s, Placeholder)
  {
    assert OccursAt(s, Placeholder, 0);
  }

  /** The second step of the example: the placeholder that starts the rest
      of the text is replaced, and the `!` after it is kept. */
  lemma ReplaceTailPlaceholder()
    ensures Replace(Placeholder + "!", Placeholder, "codec_hash") == "codec_hash!"
  {
    var t := Placeholder + "!";
    assert t[..|Placeholder|] == Placeholder;
    ReplaceAtMatch(t, Placeholder, "codec_hash");
    assert t[|Placeholder|..] == "!";
    assert Replace("!", Placeholder, "codec_hash") == "!";
  }
}
