/** The handful of Python string built-ins the fetcher relies on, as total
    functions over `string` (a `seq<char>`): `in` on strings, ASCII
    `lower()`, `strip(chars)`, whitespace `split()` and `sep.join(xs)`. */
module Text {

  /** The characters `str.split()` and `str.strip()` treat as whitespace,
      restricted to ASCII: space, tab, line feed, carriage return, vertical
      tab, form feed and the four separators 0x1C to 0x1F. */
  const Whitespace: set<char> :=
    {' ', '\t', '\n', '\r', '\U{000B}', '\U{000C}', '\U{001C}', '\U{001D}', '\U{001E}', '\U{001F}'}

  // ---------------------------------------------------------------------
  // Substring test: Python's `sub in s`
  // ---------------------------------------------------------------------

  /** `sub` occurs in `s` starting at index `i`. */
  predicate OccursAt(s: string, sub: string, i: int)
  {
    0 <= i && i + |sub| <= |s| && s[i..i + |sub|] == sub
  }

  /** Python's `sub in s`: `sub` is a contiguous part of `s`. */
  function Contains(s: string, sub: string): (r: bool)
    ensures r <==> exists i :: OccursAt(s, sub, i)
    decreases |s|
  {
    if sub <= s then
      assert OccursAt(s, sub, 0);
      true
    else if |s| == 0 then
      false
    else
      var r := Contains(s[1..], sub);
      assert r ==> exists i :: OccursAt(s, sub, i) by {
        if r {
          var i :| OccursAt(s[1..], sub, i);
          assert s[1..][i..i + |sub|] == s[i + 1..i + 1 + |sub|];
          assert OccursAt(s, sub, i + 1);
        }
      }
      assert (exists i :: OccursAt(s, sub, i)) ==> r by {
        if exists i :: OccursAt(s, sub, i) {
          var i :| OccursAt(s, sub, i);
          if i > 0 {
            assert s[1..][i - 1..i - 1 + |sub|] == s[i..i + |sub|];
            assert OccursAt(s[1..], sub, i - 1);
          }
        }
      }
      r
  }

  /** A text lacking one of the characters of `sub` does not contain it. */
  lemma NotContainedWithout(s: string, sub: string, c: char)
    requires c in sub && c !in s
    ensures !Contains(s, sub)
  {
  }

  // ---------------------------------------------------------------------
  // ASCII case folding: Python's `s.lower()` on ASCII text
  // ---------------------------------------------------------------------

  predicate IsUpper(c: char)
  {
    'A' <= c <= 'Z'
  }

  /** The lower-case form of one character; only ASCII letters change. */
  function LowerChar(c: char): (r: char)
    ensures !IsUpper(r)
    ensures IsUpper(c) ==> r as int == c as int + 32
    ensures !IsUpper(c) ==> r == c
  {
    if IsUpper(c) then (c as int + 32) as char else c
  }

  /** `s.lower()`: same length, every position folded, no capital left. */
  function Lower(s: string): (r: string)
    ensures |r| == |s|
    ensures forall i :: 0 <= i < |s| ==> r[i] == LowerChar(s[i])
    ensures forall i :: 0 <= i < |r| ==> !IsUpper(r[i])
  {
    seq(|s|, i requires 0 <= i < |s| => LowerChar(s[i]))
  }

  /** Folding twice is folding once. */
  lemma LowerIdempotent(s: string)
    ensures Lower(Lower(s)) == Lower(s)
  {
    var l := Lower(s);
    assert forall i :: 0 <= i < |l| ==> Lower(l)[i] == LowerChar(l[i]) == l[i];
  }

  // ---------------------------------------------------------------------
  // Stripping: Python's `s.strip(chars)`
  // ---------------------------------------------------------------------

  /** `s.lstrip(chars)`: the suffix of `s` left after dropping every leading
      character that is in `cs`. */
  function TrimStart(s: string, cs: set<char>): (r: string)
    ensures |r| <= |s| && r == s[|s| - |r|..]
    ensures r == [] || r[0] !in cs
    decreases |s|
  {
    if |s| > 0 && s[0] in cs then TrimStart(s[1..], cs) else s
  }

  /** Everything `lstrip` drops is in `cs`. */
  lemma {:induction false} TrimStartDropped(s: string, cs: set<char>)
    ensures forall k :: 0 <= k < |s| - |TrimStart(s, cs)| ==> s[k] in cs
    decreases |s|
  {
    if |s| > 0 && s[0] in cs {
      TrimStartDropped(s[1..], cs);
    }
  }

  /** `s.rstrip(chars)`: the prefix of `s` left after dropping every trailing
      character that is in `cs`. */
  function TrimEnd(s: string, cs: set<char>): (r: string)
    ensures |r| <= |s| && r == s[..|r|]
    ensures r == [] || r[|r| - 1] !in cs
    decreases |s|
  {
    if |s| > 0 && s[|s| - 1] in cs then TrimEnd(s[..|s| - 1], cs) else s
  }

  /** Everything `rstrip` drops is in `cs`. */
  lemma {:induction false} TrimEndDropped(s: string, cs: set<char>)
    ensures forall k :: |TrimEnd(s, cs)| <= k < |s| ==> s[k] in cs
    decreases |s|
  {
    if |s| > 0 && s[|s| - 1] in cs {
      TrimEndDropped(s[..|s| - 1], cs);
    }
  }

  /** `s.strip(chars)`: `s` with every character of `cs` removed from both
      ends. */
  function Strip(s: string, cs: set<char>): string
  {
    TrimEnd(TrimStart(s, cs), cs)
  }

  /** The stripped string neither begins nor ends with a character of `cs`,
      holds only characters of `s`, and keeps every character of `s` that is
      outside `cs`. */
  lemma StripShape(s: string, cs: set<char>)
    ensures var r := Strip(s, cs);
            && (r == [] || (r[0] !in cs && r[|r| - 1] !in cs))
            && (forall c :: c in r ==> c in s)
            && (forall k :: 0 <= k < |s| && s[k] !in cs ==> s[k] in r)
  {
    var t := TrimStart(s, cs);
    var r := TrimEnd(t, cs);
    var i := |s| - |t|;
    forall c | c in r
      ensures c in s
    {
      var k :| 0 <= k < |r| && r[k] == c;
      assert r[k] == t[k] == s[i + k];
    }
    forall k | 0 <= k < |s| && s[k] !in cs
      ensures s[k] in r
    {
      TrimStartDropped(s, cs);
      TrimEndDropped(t, cs);
      assert i <= k < i + |r|;
      assert r[k - i] == t[k - i] == s[k];
    }
  }

  /** `r` is one contiguous slice `s[i..j]` of `s`, and everything outside
      the slice is in `cs`. */
  ghost predicate SliceWithin(r: string, s: string, cs: set<char>)
  {
    exists i, j :: 0 <= i <= j <= |s| && r == s[i..j]
                   && forall k :: 0 <= k < |s| && (k < i || j <= k) ==> s[k] in cs
  }

  /** The exact rule of `strip(chars)`: the result is a slice of the input
      with only characters of `cs` cut away. With StripShape (clean ends)
      this fixes the result uniquely. */
  lemma StripSlice(s: string, cs: set<char>)
    ensures SliceWithin(Strip(s, cs), s, cs)
  {
    var t := TrimStart(s, cs);
    var r := TrimEnd(t, cs);
    var i := |s| - |t|;
    var j := i + |r|;
    TrimStartDropped(s, cs);
    TrimEndDropped(t, cs);
    assert r == s[i..j];
    forall k | j <= k < |s|
      ensures s[k] in cs
    {
      assert t[k - i] == s[k];
    }
  }

  /** Stripping leaves a string alone when neither end is in `cs`. */
  lemma StripClean(s: string, cs: set<char>)
    requires s == [] || (s[0] !in cs && s[|s| - 1] !in cs)
    ensures Strip(s, cs) == s
  {
  }

  /** Characters of `cs` appended at the end vanish under `rstrip`. */
  lemma {:induction false} TrimEndAppend(s: string, t: string, cs: set<char>)
    requires forall k :: 0 <= k < |t| ==> t[k] in cs
    ensures TrimEnd(s + t, cs) == TrimEnd(s, cs)
    decreases |t|
  {
    if t == [] {
      assert s + t == s;
    } else {
      var t' := t[..|t| - 1];
      assert (s + t)[|s + t| - 1] == t[|t| - 1];
      assert (s + t)[..|s + t| - 1] == s + t';
      TrimEndAppend(s, t', cs);
    }
  }

  /** Characters of `cs` put in front vanish under `lstrip`. */
  lemma {:induction false} TrimStartPrepend(t: string, s: string, cs: set<char>)
    requires forall k :: 0 <= k < |t| ==> t[k] in cs
    ensures TrimStart(t + s, cs) == TrimStart(s, cs)
    decreases |t|
  {
    if t == [] {
      assert t + s == s;
    } else {
      assert (t + s)[0] == t[0];
      assert (t + s)[1..] == t[1..] + s;
      TrimStartPrepend(t[1..], s, cs);
    }
  }

  /** A string made only of characters of `cs` strips to the empty string. */
  lemma StripAllOf(s: string, cs: set<char>)
    requires forall k :: 0 <= k < |s| ==> s[k] in cs
    ensures Strip(s, cs) == ""
  {
    TrimStartPrepend(s, "", cs);
    assert s + "" == s;
  }

  // ---------------------------------------------------------------------
  // Splitting on whitespace: Python's `s.split()`
  // ---------------------------------------------------------------------

  /** `s` with every character of `cs` deleted. */
  function Without(s: string, cs: set<char>): string
  {
    if s == [] then []
    else (if s[0] in cs then [] else [s[0]]) + Without(s[1..], cs)
  }

  /** No character of `s` is in `cs`. */
  predicate NoneOf(s: string, cs: set<char>)
  {
    forall k :: 0 <= k < |s| ==> s[k] !in cs
  }

  /** The length of the longest prefix of `s` with no character of `cs`. */
  function SpanOutside(s: string, cs: set<char>): (n: nat)
    ensures n <= |s|
    ensures n < |s| ==> s[n] in cs
  {
    if s == [] || s[0] in cs then 0 else 1 + SpanOutside(s[1..], cs)
  }

  /** The span holds no character of `cs`. */
  lemma {:induction false} SpanOutsideClean(s: string, cs: set<char>)
    ensures NoneOf(s[..SpanOutside(s, cs)], cs)
    decreases |s|
  {
    if s != [] && s[0] !in cs {
      SpanOutsideClean(s[1..], cs);
      assert s[..SpanOutside(s, cs)] == [s[0]] + s[1..][..SpanOutside(s[1..], cs)];
    }
  }

  /** `s.split()`: the maximal runs of non-whitespace characters, in order. */
  function Words(s: string): seq<string>
    decreases |s|
  {
    if s == [] then []
    else if s[0] in Whitespace then Words(s[1..])
    else
      var n := SpanOutside(s, Whitespace);
      [s[..n]] + Words(s[n..])
  }

  /** Every word is a non-empty run with no whitespace in it. */
  lemma {:induction false} WordsAreTokens(s: string)
    ensures forall j :: 0 <= j < |Words(s)| ==> Words(s)[j] != [] && NoneOf(Words(s)[j], Whitespace)
    decreases |s|
  {
    if s == [] {
    } else if s[0] in Whitespace {
      WordsAreTokens(s[1..]);
    } else {
      var n := SpanOutside(s, Whitespace);
      SpanOutsideClean(s, Whitespace);
      WordsAreTokens(s[n..]);
    }
  }

  /** The words laid end to end. */
  function Concat(ws: seq<string>): string
  {
    if ws == [] then [] else ws[0] + Concat(ws[1..])
  }

  /** Deleting the characters of `cs` distributes over concatenation. */
  lemma {:induction false} WithoutAppend(a: string, b: string, cs: set<char>)
    ensures Without(a + b, cs) == Without(a, cs) + Without(b, cs)
    decreases |a|
  {
    if a == [] {
      assert a + b == b;
    } else {
      assert (a + b)[0] == a[0];
      assert (a + b)[1..] == a[1..] + b;
      WithoutAppend(a[1..], b, cs);
    }
  }

  /** A text holding no character of `cs` is left alone. */
  lemma {:induction false} WithoutNone(s: string, cs: set<char>)
    requires forall k :: 0 <= k < |s| ==> s[k] !in cs
    ensures Without(s, cs) == s
    decreases |s|
  {
    if s != [] {
      WithoutNone(s[1..], cs);
    }
  }

  /** A character outside `cs` survives `Without`. */
  lemma {:induction false} WithoutKeeps(s: string, cs: set<char>, k: nat)
    requires k < |s| && s[k] !in cs
    ensures s[k] in Without(s, cs)
    decreases k
  {
    if k > 0 {
      assert s[1..][k - 1] == s[k];
      WithoutKeeps(s[1..], cs, k - 1);
    }
  }

  /** Splitting loses exactly the whitespace: the words, laid end to end,
      are `s` with its whitespace deleted. */
  lemma {:induction false} WordsConcat(s: string)
    ensures Concat(Words(s)) == Without(s, Whitespace)
    decreases |s|
  {
    if s == [] {
    } else if s[0] in Whitespace {
      WordsConcat(s[1..]);
    } else {
      var n := SpanOutside(s, Whitespace);
      var w, rest := s[..n], s[n..];
      assert ([w] + Words(rest))[1..] == Words(rest);
      assert s == w + rest;
      WithoutAppend(w, rest, Whitespace);
      SpanOutsideClean(s, Whitespace);
      WithoutNone(w, Whitespace);
      WordsConcat(rest);
    }
  }

  /** A word followed by whitespace or the end of the text is split off. */
  lemma WordsFront(w: string, rest: string)
    requires w != [] && NoneOf(w, Whitespace)
    requires rest == [] || rest[0] in Whitespace
    ensures Words(w + rest) == [w] + Words(rest)
  {
    SpanOutsideWord(w, rest);
    assert (w + rest)[..|w|] == w && (w + rest)[|w|..] == rest;
  }

  lemma {:induction false} SpanOutsideWord(w: string, rest: string)
    requires NoneOf(w, Whitespace)
    requires rest == [] || rest[0] in Whitespace
    ensures SpanOutside(w + rest, Whitespace) == |w|
    decreases |w|
  {
    if w == [] {
      assert w + rest == rest;
    } else {
      assert (w + rest)[1..] == w[1..] + rest;
      SpanOutsideWord(w[1..], rest);
    }
  }

  /** A text that is one word splits into that word. */
  lemma WordsOne(w: string)
    requires w != [] && NoneOf(w, Whitespace)
    ensures Words(w) == [w]
  {
    WordsFront(w, "");
    assert w + "" == w;
  }

  /** A word and a space in front of the rest of a text split off as that
      word. */
  lemma WordsCons(w: string, rest: string)
    requires w != [] && NoneOf(w, Whitespace)
    ensures Words(w + " " + rest) == [w] + Words(rest)
  {
    assert w + " " + rest == w + (" " + rest);
    WordsFront(w, " " + rest);
    assert (" " + rest)[1..] == rest;
  }

  /** Three words separated by single spaces split into those words. */
  lemma WordsThree(a: string, b: string, c: string)
    requires a != [] && NoneOf(a, Whitespace)
    requires b != [] && NoneOf(b, Whitespace)
    requires c != [] && NoneOf(c, Whitespace)
    ensures Words(a + " " + b + " " + c) == [a, b, c]
  {
    WordsOne(c);
    WordsCons(b, c);
    assert a + " " + b + " " + c == a + " " + (b + " " + c);
    WordsCons(a, b + " " + c);
  }

  /** A non-whitespace character of `s` lands in some word. */
  lemma WordsKeep(s: string, c: char)
    requires c in s && c !in Whitespace
    ensures exists w :: w in Words(s) && c in w
  {
    WordsConcat(s);
    var k :| 0 <= k < |s| && s[k] == c;
    WithoutKeeps(s, Whitespace, k);
    ConcatMember(Words(s), c);
  }

  lemma {:induction false} ConcatMember(ws: seq<string>, c: char)
    requires c in Concat(ws)
    ensures exists w :: w in ws && c in w
  {
    if ws != [] {
      if c !in ws[0] {
        ConcatMember(ws[1..], c);
        var w :| w in ws[1..] && c in w;
        assert w in ws;
      }
    }
  }

  // ---------------------------------------------------------------------
  // Joining: Python's `sep.join(xs)`
  // ---------------------------------------------------------------------

  /** `sep.join(xs)`: the items in order with `sep` between neighbours. */
  function Join(xs: seq<string>, sep: string): (r: string)
    ensures xs != [] ==> |r| == TotalLength(xs) + (|xs| - 1) * |sep|
    decreases |xs|
  {
    if xs == [] then ""
    else if |xs| == 1 then xs[0]
    else xs[0] + sep + Join(xs[1..], sep)
  }

  /** The summed length of the items. */
  function TotalLength(xs: seq<string>): nat
  {
    if xs == [] then 0 else |xs[0]| + TotalLength(xs[1..])
  }

  /** Joining one more item adds the separator and that item at the end. */
  lemma {:induction false} JoinSnoc(xs: seq<string>, x: string, sep: string)
    requires xs != []
    ensures Join(xs + [x], sep) == Join(xs, sep) + sep + x
    decreases |xs|
  {
    if |xs| > 1 {
      assert (xs + [x])[1..] == xs[1..] + [x];
      JoinSnoc(xs[1..], x, sep);
    }
  }

  /** With a non-empty separator, a join is empty only when there is nothing
      to join or the one item is itself empty. */
  lemma JoinEmpty(xs: seq<string>, sep: string)
    requires sep != ""
    ensures Join(xs, sep) == "" <==> xs == [] || xs == [""]
  {
  }
}
