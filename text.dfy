/** The string operations the search relies on: Python's `str.lower()`,
    `str.split()` with no argument, the `in` substring test, `str.startswith`
    and `str.strip`. */
module Text {

  /** The characters for which Python's `str.isspace()` holds; `split()` and
      `strip()` with no argument treat exactly these as whitespace. */
  const Whitespace: set<char> := {
    '\t', '\n', '\U{0B}', '\U{0C}', '\r',
    '\U{1C}', '\U{1D}', '\U{1E}', '\U{1F}', ' ',
    '\U{85}', '\U{A0}', '\U{1680}',
    '\U{2000}', '\U{2001}', '\U{2002}', '\U{2003}', '\U{2004}', '\U{2005}',
    '\U{2006}', '\U{2007}', '\U{2008}', '\U{2009}', '\U{200A}',
    '\U{2028}', '\U{2029}', '\U{202F}', '\U{205F}', '\U{3000}'
  }

  predicate IsSpace(c: char) {
    c in Whitespace
  }

  // ---------------------------------------------------------------- lower()

  predicate IsUpper(c: char) {
    'A' <= c <= 'Z'
  }

  /** Lower-cases one character; only ASCII letters are mapped. */
  function LowerChar(c: char): (r: char)
    ensures !IsUpper(r)
    ensures IsUpper(c) ==> r as int == c as int + 32
    ensures !IsUpper(c) ==> r == c
  {
    if IsUpper(c) then (c as int + 32) as char else c
  }

  function Lower(s: string): (r: string)
    ensures |r| == |s|
    ensures forall i :: 0 <= i < |s| ==> r[i] == LowerChar(s[i])
  {
    seq(|s|, i requires 0 <= i < |s| => LowerChar(s[i]))
  }

  /** Lower-casing leaves no upper-case letter behind, so doing it twice is
      the same as doing it once. */
  lemma LowerIdempotent(s: string)
    ensures Lower(Lower(s)) == Lower(s)
    ensures forall i :: 0 <= i < |s| ==> !IsUpper(Lower(s)[i])
  {
  }

  /** No ASCII letter is whitespace. */
  lemma LetterNotSpace(c: char)
    requires 'A' <= c <= 'Z' || 'a' <= c <= 'z'
    ensures !IsSpace(c)
  {
  }

  /** Lower-casing never turns a non-space into a space or back, so it does
      not move word boundaries. */
  lemma LowerKeepsSpaces(s: string)
    ensures forall i :: 0 <= i < |s| ==> (IsSpace(Lower(s)[i]) <==> IsSpace(s[i]))
  {
    forall i | 0 <= i < |s| && IsUpper(s[i])
      ensures IsSpace(Lower(s)[i]) <==> IsSpace(s[i])
    {
      LetterNotSpace(s[i]);
      LetterNotSpace(Lower(s)[i]);
    }
  }

  // ---------------------------------------------------------------- split()

  /** Number of leading characters of `s` that belong to `cs`. */
  function LeadIn(s: string, cs: set<char>): (n: nat)
    ensures n <= |s|
    ensures n == |s| || s[n] !in cs
  {
    if s != [] && s[0] in cs then 1 + LeadIn(s[1..], cs) else 0
  }

  /** Everything before `LeadIn(s, cs)` is in `cs`. */
  lemma {:induction false} LeadInAll(s: string, cs: set<char>)
    ensures forall k :: 0 <= k < LeadIn(s, cs) ==> s[k] in cs
  {
    if s != [] && s[0] in cs {
      LeadInAll(s[1..], cs);
      assert forall k :: 1 <= k < |s| ==> s[k] == s[1..][k - 1];
    }
  }

  /** A piece as splitting on `cs` produces it: non-empty, free of `cs`. */
  predicate IsPieceOf(w: string, cs: set<char>) {
    w != [] && NoneIn(w, cs)
  }

  predicate NoneIn(s: string, cs: set<char>) {
    forall k :: 0 <= k < |s| ==> s[k] !in cs
  }

  predicate AllIn(s: string, cs: set<char>) {
    forall k :: 0 <= k < |s| ==> s[k] in cs
  }

  /** The left-to-right scan of `split`: `cur` is the piece read so far; a
      character of `cs` ends it, and an empty piece is never emitted. */
  function SplitScan(s: string, cs: set<char>, cur: string): seq<string> {
    if s == [] then (if cur == [] then [] else [cur])
    else if s[0] in cs then (if cur == [] then [] else [cur]) + SplitScan(s[1..], cs, [])
    else SplitScan(s[1..], cs, cur + [s[0]])
  }

  /** The maximal runs of characters outside `cs`, in order. */
  function SplitOn(s: string, cs: set<char>): seq<string> {
    SplitScan(s, cs, [])
  }

  lemma {:induction false} SplitScanPieces(s: string, cs: set<char>, cur: string)
    requires NoneIn(cur, cs)
    ensures forall k :: 0 <= k < |SplitScan(s, cs, cur)| ==> IsPieceOf(SplitScan(s, cs, cur)[k], cs)
    ensures SplitScan(s, cs, cur) == [] <==> (cur == [] && AllIn(s, cs))
  {
    if s != [] {
      if s[0] in cs {
        SplitScanPieces(s[1..], cs, []);
        assert AllIn(s, cs) <==> AllIn(s[1..], cs) by {
          assert forall k :: 1 <= k < |s| ==> s[k] == s[1..][k - 1];
        }
        var r := SplitScan(s[1..], cs, []);
        if cur != [] {
          assert forall k :: 1 <= k < |[cur] + r| ==> ([cur] + r)[k] == r[k - 1];
        } else {
          assert [] + r == r;
        }
      } else {
        var cur' := cur + [s[0]];
        assert NoneIn(cur', cs) by {
          assert forall k :: 0 <= k < |cur| ==> cur'[k] == cur[k];
        }
        SplitScanPieces(s[1..], cs, cur');
      }
    }
  }

  /** Every piece is non-empty and free of `cs`; there are none exactly when
      every character is in `cs`. */
  lemma SplitOnPieces(s: string, cs: set<char>)
    ensures forall k :: 0 <= k < |SplitOn(s, cs)| ==> IsPieceOf(SplitOn(s, cs)[k], cs)
    ensures SplitOn(s, cs) == [] <==> AllIn(s, cs)
  {
    SplitScanPieces(s, cs, []);
  }

  /** Separators in front change nothing. */
  lemma {:induction false} SplitOnSkipsLeading(sp: string, s: string, cs: set<char>)
    requires AllIn(sp, cs)
    ensures SplitOn(sp + s, cs) == SplitOn(s, cs)
  {
    if sp == [] {
      assert sp + s == s;
    } else {
      assert (sp + s)[0] == sp[0];
      assert (sp + s)[1..] == sp[1..] + s;
      assert AllIn(sp[1..], cs) by {
        assert forall k :: 0 <= k < |sp| - 1 ==> sp[1..][k] == sp[k + 1];
      }
      SplitOnSkipsLeading(sp[1..], s, cs);
    }
  }

  /** A run of characters outside `cs` is added to the current piece. */
  lemma {:induction false} SplitScanWord(w: string, rest: string, cs: set<char>, cur: string)
    requires NoneIn(w, cs)
    ensures SplitScan(w + rest, cs, cur) == SplitScan(rest, cs, cur + w)
  {
    if w == [] {
      assert w + rest == rest;
      assert cur + w == cur;
    } else {
      assert (w + rest)[0] == w[0];
      assert (w + rest)[1..] == w[1..] + rest;
      assert NoneIn(w[1..], cs) by {
        assert forall k :: 0 <= k < |w| - 1 ==> w[1..][k] == w[k + 1];
      }
      SplitScanWord(w[1..], rest, cs, cur + [w[0]]);
      assert cur + [w[0]] + w[1..] == cur + w;
    }
  }

  /** `sep.join(ws)` for a one-character separator. */
  function JoinWith(ws: seq<string>, sep: char): string {
    if ws == [] then ""
    else if |ws| == 1 then ws[0]
    else ws[0] + [sep] + JoinWith(ws[1..], sep)
  }

  lemma {:induction false} SplitOnJoin(ws: seq<string>, sep: char, cs: set<char>)
    requires sep in cs
    requires forall k :: 0 <= k < |ws| ==> IsPieceOf(ws[k], cs)
    ensures SplitOn(JoinWith(ws, sep), cs) == ws
  {
    if ws != [] {
      var w := ws[0];
      assert IsPieceOf(w, cs);
      if |ws| == 1 {
        assert JoinWith(ws, sep) == w + "";
        SplitScanWord(w, "", cs, []);
        assert [] + w == w;
      } else {
        var more := JoinWith(ws[1..], sep);
        var rest := [sep] + more;
        assert JoinWith(ws, sep) == w + rest;
        SplitScanWord(w, rest, cs, []);
        assert [] + w == w;
        assert rest[1..] == more;
        assert SplitScan(rest, cs, w) == [w] + SplitOn(more, cs);
        SplitOnJoin(ws[1..], sep, cs);
        assert ws == [w] + ws[1..];
      }
    }
  }

  /** Python's `s.split()`: the maximal runs of non-whitespace characters,
      in order; leading, trailing and repeated whitespace yield no empty word. */
  function Split(s: string): seq<string> {
    SplitOn(s, Whitespace)
  }

  /** A word as `split()` produces it: non-empty, without whitespace. */
  predicate IsWord(w: string) {
    IsPieceOf(w, Whitespace)
  }

  predicate AllSpace(s: string) {
    AllIn(s, Whitespace)
  }

  /** Every word of `split()` is non-empty and free of whitespace, and there
      are none exactly when the string is all whitespace. */
  lemma SplitWords(s: string)
    ensures forall k :: 0 <= k < |Split(s)| ==> IsWord(Split(s)[k])
    ensures Split(s) == [] <==> AllSpace(s)
  {
    SplitOnPieces(s, Whitespace);
  }

  /** Splitting undoes joining with single spaces: `" ".join(ws).split() == ws`
      whenever every element is a word. */
  lemma SplitJoinSpace(ws: seq<string>)
    requires forall k :: 0 <= k < |ws| ==> IsWord(ws[k])
    ensures Split(JoinWith(ws, ' ')) == ws
  {
    SplitOnJoin(ws, ' ', Whitespace);
  }

  /** `[w.lower() for w in ws]`. */
  function LowerAll(ws: seq<string>): seq<string> {
    seq(|ws|, k requires 0 <= k < |ws| => Lower(ws[k]))
  }

  /** The scan over a lower-cased string emits the lower-cased pieces, when
      lower-casing neither adds nor removes separators. */
  lemma {:induction false} SplitScanLower(s: string, cs: set<char>, cur: string)
    requires forall c :: LowerChar(c) in cs <==> c in cs
    ensures SplitScan(Lower(s), cs, Lower(cur)) == LowerAll(SplitScan(s, cs, cur))
  {
    var ls := Lower(s);
    var lc := Lower(cur);
    assert lc == [] <==> cur == [];
    if s == [] {
      if cur != [] {
        assert LowerAll([cur]) == [lc];
      }
    } else {
      assert ls[0] == LowerChar(s[0]);
      assert ls[1..] == Lower(s[1..]);
      if s[0] in cs {
        SplitScanLower(s[1..], cs, []);
        assert Lower([]) == [];
        var head := if cur == [] then [] else [cur];
        var tail := SplitScan(s[1..], cs, []);
        assert LowerAll(head + tail) == LowerAll(head) + LowerAll(tail);
        if cur != [] {
          assert LowerAll([cur]) == [lc];
        } else {
          assert LowerAll([]) == [];
        }
      } else {
        SplitScanLower(s[1..], cs, cur + [s[0]]);
        assert Lower(cur + [s[0]]) == lc + [ls[0]];
      }
    }
  }

  /** Lower-casing before splitting gives the lower-cased words:
      `s.lower().split() == [w.lower() for w in s.split()]`. */
  lemma SplitLower(s: string)
    ensures Split(Lower(s)) == LowerAll(Split(s))
  {
    forall c: char ensures LowerChar(c) in Whitespace <==> c in Whitespace {
      if IsUpper(c) {
        LetterNotSpace(c);
        LetterNotSpace(LowerChar(c));
      }
    }
    SplitScanLower(s, Whitespace, []);
    assert Lower([]) == [];
  }

  // ---------------------------------------------------------- substring test

  predicate IsPrefix<T(==)>(p: seq<T>, s: seq<T>) {
    |p| <= |s| && s[..|p|] == p
  }

  /** Python's `w in text` on strings: `w` occurs contiguously somewhere in
      `text`, with no regard for word boundaries. */
  predicate Contains(text: string, w: string)
    decreases |text|
  {
    IsPrefix(w, text) || (text != [] && Contains(text[1..], w))
  }

  predicate OccursAt(text: string, w: string, i: int) {
    0 <= i && i + |w| <= |text| && text[i..i + |w|] == w
  }

  lemma {:induction false} ContainsAt(text: string, w: string, i: int)
    requires OccursAt(text, w, i)
    ensures Contains(text, w)
    decreases |text|
  {
    if i == 0 {
      assert text[..|w|] == text[0..0 + |w|];
    } else {
      assert text[1..][i - 1..i - 1 + |w|] == text[i..i + |w|];
      ContainsAt(text[1..], w, i - 1);
    }
  }

  lemma {:induction false} ContainsWitness(text: string, w: string)
    requires Contains(text, w)
    ensures exists i :: OccursAt(text, w, i)
    decreases |text|
  {
    if IsPrefix(w, text) {
      assert OccursAt(text, w, 0);
    } else {
      ContainsWitness(text[1..], w);
      var i :| OccursAt(text[1..], w, i);
      assert text[i + 1..i + 1 + |w|] == text[1..][i..i + |w|];
      assert OccursAt(text, w, i + 1);
    }
  }

  /** The recursive test finds exactly the occurrences at some position. */
  lemma ContainsIff(text: string, w: string)
    ensures Contains(text, w) <==> exists i :: OccursAt(text, w, i)
  {
    if Contains(text, w) {
      ContainsWitness(text, w);
    }
    forall i | OccursAt(text, w, i) {
      ContainsAt(text, w, i);
    }
  }

  /** "cat" is found inside "category": matching ignores word boundaries. */
  lemma ContainsIgnoresBoundaries()
    ensures Contains("category", "cat")
  {
    assert IsPrefix("cat", "category");
  }

  /** Python's `s.startswith(p)`. */
  predicate StartsWith(s: string, p: string) {
    IsPrefix(p, s)
  }

  // ---------------------------------------------------------------- strip()

  /** Number of trailing characters of `s` that belong to `cs`. */
  function TrailIn(s: string, cs: set<char>): (n: nat)
    ensures n <= |s|
    ensures n == |s| || s[|s| - 1 - n] !in cs
  {
    if s != [] && s[|s| - 1] in cs then 1 + TrailIn(s[..|s| - 1], cs) else 0
  }

  /** Everything in the last `TrailIn(s, cs)` positions is in `cs`. */
  lemma {:induction false} TrailInAll(s: string, cs: set<char>)
    ensures forall k :: |s| - TrailIn(s, cs) <= k < |s| ==> s[k] in cs
  {
    if s != [] && s[|s| - 1] in cs {
      TrailInAll(s[..|s| - 1], cs);
      assert forall k :: 0 <= k < |s| - 1 ==> s[k] == s[..|s| - 1][k];
    }
  }

  /** Python's `s.strip(chars)`: drop every leading and every trailing
      character that is one of `cs`. */
  function StripIn(s: string, cs: set<char>): string {
    var t := s[LeadIn(s, cs)..];
    t[..|t| - TrailIn(t, cs)]
  }

  /** What `strip` removes: a prefix and a suffix made only of characters of
      `cs`, and the part kept neither begins nor ends with one of them. */
  predicate StrippedAt(s: string, cs: set<char>, r: string, i: int, j: int) {
    0 <= i <= j <= |s| && r == s[i..j]
    && (forall k :: 0 <= k < i ==> s[k] in cs)
    && (forall k :: j <= k < |s| ==> s[k] in cs)
  }

  lemma {:induction false} StripInShape(s: string, cs: set<char>)
    ensures StrippedAt(s, cs, StripIn(s, cs), LeadIn(s, cs), |s| - TrailIn(s[LeadIn(s, cs)..], cs))
    ensures var r := StripIn(s, cs); r == [] || (r[0] !in cs && r[|r| - 1] !in cs)
  {
    var i := LeadIn(s, cs);
    var t := s[i..];
    var n := TrailIn(t, cs);
    var j := |s| - n;
    LeadInAll(s, cs);
    TrailInAll(t, cs);
    var r := t[..|t| - n];
    assert r == s[i..j];
    forall k | j <= k < |s| ensures s[k] in cs {
      assert s[k] == t[k - i];
    }
    if r != [] {
      assert r[0] == s[i];
      assert r[|r| - 1] == t[|t| - 1 - n];
    }
  }

  /** A string that neither begins nor ends with a character of `cs` is
      left alone by `strip(cs)`. */
  lemma StripInKeeps(s: string, cs: set<char>)
    requires s == [] || (s[0] !in cs && s[|s| - 1] !in cs)
    ensures StripIn(s, cs) == s
  {
    assert LeadIn(s, cs) == 0;
    assert s[0..] == s;
    assert TrailIn(s, cs) == 0;
  }

  /** Stripping twice is stripping once. */
  lemma StripInIdempotent(s: string, cs: set<char>)
    ensures StripIn(StripIn(s, cs), cs) == StripIn(s, cs)
  {
    StripInShape(s, cs);
    StripInKeeps(StripIn(s, cs), cs);
  }

  /** Python's `s.strip()` with no argument. */
  function Strip(s: string): string {
    StripIn(s, Whitespace)
  }
}
