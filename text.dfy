/**
 * The JavaScript string operations the data core relies on: `trim`,
 * `split` (on one character and on a word), `replace` of the first
 * occurrence, a global regular-expression replace by the empty string,
 * `includes` and ASCII `toLowerCase`.  Characters are Unicode scalar values.
 */
module Text {
  import opened JsValues

  /** `\s` in a regular expression, and what `trim` removes: the
      ECMAScript WhiteSpace and LineTerminator characters. */
  predicate IsJsSpace(c: char) {
    || c == '\t' || c == '\n' || c == '\U{B}' || c == '\U{C}' || c == '\r'
    || c == ' ' || c == '\U{A0}' || c == '\U{1680}'
    || ('\U{2000}' <= c <= '\U{200A}')
    || c == '\U{2028}' || c == '\U{2029}' || c == '\U{202F}' || c == '\U{205F}'
    || c == '\U{3000}' || c == '\U{FEFF}'
  }

  predicate AllSpaces(s: string) {
    forall i | 0 <= i < |s| :: IsJsSpace(s[i])
  }

  /** Leading white space removed: what remains does not start with white
      space. */
  function TrimStart(s: string): (r: string)
    ensures |r| <= |s|
    ensures r == [] || !IsJsSpace(r[0])
  {
    if s != [] && IsJsSpace(s[0]) then TrimStart(s[1..]) else s
  }

  /** What `TrimStart` keeps is a suffix of `s`, and what it removes is all
      white space. */
  lemma {:induction false} TrimStartShape(s: string)
    ensures TrimStart(s) == s[|s| - |TrimStart(s)|..]
    ensures AllSpaces(s[..|s| - |TrimStart(s)|])
  {
    if s != [] && IsJsSpace(s[0]) {
      TrimStartShape(s[1..]);
      var n := |s| - |TrimStart(s)|;
      assert s[1..][n - 1..] == s[n..];
      forall i | 0 <= i < n ensures IsJsSpace(s[..n][i]) {
        if i > 0 {
          assert s[..n][i] == s[1..][..n - 1][i - 1];
        }
      }
    }
  }

  /** Trailing white space removed: what remains does not end with white
      space. */
  function TrimEnd(s: string): (r: string)
    ensures |r| <= |s| && (r != [] ==> r[0] == s[0])
    ensures r == [] || !IsJsSpace(r[|r| - 1])
  {
    if s != [] && IsJsSpace(s[|s| - 1]) then TrimEnd(s[..|s| - 1]) else s
  }

  /** What `TrimEnd` keeps is a prefix of `s`, and what it removes is all
      white space. */
  lemma {:induction false} TrimEndShape(s: string)
    ensures TrimEnd(s) == s[..|TrimEnd(s)|]
    ensures AllSpaces(s[|TrimEnd(s)|..])
  {
    if s != [] && IsJsSpace(s[|s| - 1]) {
      TrimEndShape(s[..|s| - 1]);
      var n := |TrimEnd(s)|;
      assert s[..|s| - 1][..n] == s[..n];
      forall i | 0 <= i < |s| - n ensures IsJsSpace(s[n..][i]) {
        if i < |s| - 1 - n {
          assert s[n..][i] == s[..|s| - 1][n..][i];
        }
      }
    }
  }

  /** `s.trim()`: neither starts nor ends with white space. */
  function Trim(s: string): (r: string)
    ensures |r| <= |s|
    ensures r == [] || (!IsJsSpace(r[0]) && !IsJsSpace(r[|r| - 1]))
  {
    TrimEnd(TrimStart(s))
  }

  /** The trim of `s` is the slice `s[i..i + |Trim(s)|]`, and everything
      around it is white space. */
  lemma TrimSlice(s: string) returns (i: nat)
    ensures i + |Trim(s)| <= |s|
    ensures Trim(s) == s[i..i + |Trim(s)|]
    ensures AllSpaces(s[..i]) && AllSpaces(s[i + |Trim(s)|..])
  {
    var t := TrimStart(s);
    var r := TrimEnd(t);
    TrimStartShape(s);
    TrimEndShape(t);
    i := |s| - |t|;
    assert s[i + |r|..] == t[|r|..];
  }

  /** A string that does not start or end with white space is its own trim. */
  lemma TrimOfTrimmed(s: string)
    requires s == [] || (!IsJsSpace(s[0]) && !IsJsSpace(s[|s| - 1]))
    ensures Trim(s) == s
  {
    assert TrimStart(s) == s;
    assert TrimEnd(s) == s;
  }

  /** Trimming is idempotent. */
  lemma TrimIdempotent(s: string)
    ensures Trim(Trim(s)) == Trim(s)
  {
    TrimOfTrimmed(Trim(s));
  }

  /** One space before an already trimmed text is trimmed away. */
  lemma TrimAfterSpace(x: string)
    requires x != [] && !IsJsSpace(x[0]) && !IsJsSpace(x[|x| - 1])
    ensures Trim(" " + x) == x
  {
    assert (" " + x)[1..] == x;
    assert TrimStart(x) == x;
    assert TrimEnd(x) == x;
  }

  /** One space after an already trimmed text is trimmed away. */
  lemma TrimBeforeSpace(x: string)
    requires x != [] && !IsJsSpace(x[0]) && !IsJsSpace(x[|x| - 1])
    ensures Trim(x + " ") == x
  {
    assert TrimStart(x + " ") == x + " ";
    assert (x + " ")[..|x|] == x;
    assert TrimEnd(x) == x;
  }

  /** A string trims to '' exactly when it is all white space. */
  lemma {:induction false} TrimEmptyIffSpaces(s: string)
    ensures Trim(s) == [] <==> AllSpaces(s)
  {
    var i := TrimSlice(s);
    if Trim(s) != [] {
      assert Trim(s)[0] == s[i] && !IsJsSpace(s[i]);
    }
    if Trim(s) == [] {
      assert s == s[..i] + s[i..];
    }
  }

  /** `s.replace(from, to)` with a one-character string pattern: only the
      first occurrence of `from` becomes `to`. */
  function ReplaceFirst(s: string, from: char, to: char): (r: string)
    ensures |r| == |s|
    ensures forall i | 0 <= i < |s| ::
              r[i] == (if s[i] == from && from !in s[..i] then to else s[i])
  {
    if s == [] then []
    else if s[0] == from then [to] + s[1..]
    else
      var rest := ReplaceFirst(s[1..], from, to);
      assert forall i | 1 <= i < |s| :: s[1..][..i - 1] == s[1..i];
      [s[0]] + rest
  }

  /** `s.replace(/[...]/g, '')`: every character that `drop` matches is
      removed, and the others keep their order. */
  function Without(s: string, drop: char -> bool): (r: string)
    ensures |r| <= |s|
    ensures forall i | 0 <= i < |r| :: !drop(r[i])
    ensures forall c | c in r :: c in s
    ensures (forall i | 0 <= i < |s| :: !drop(s[i])) ==> r == s
  {
    if s == [] then []
    else if drop(s[0]) then Without(s[1..], drop)
    else [s[0]] + Without(s[1..], drop)
  }

  /** Removing characters distributes over concatenation, so order is kept. */
  lemma {:induction false} WithoutAppend(a: string, b: string, drop: char -> bool)
    ensures Without(a + b, drop) == Without(a, drop) + Without(b, drop)
  {
    if a == [] {
      assert a + b == b;
    } else {
      assert (a + b)[0] == a[0];
      assert (a + b)[1..] == a[1..] + b;
      WithoutAppend(a[1..], b, drop);
    }
  }

  /** A string made only of dropped characters vanishes. */
  lemma {:induction false} WithoutAllDropped(s: string, drop: char -> bool)
    requires forall i | 0 <= i < |s| :: drop(s[i])
    ensures Without(s, drop) == []
  {
    if s != [] {
      WithoutAllDropped(s[1..], drop);
    }
  }

  /** Removing all white space makes a preceding `trim` irrelevant. */
  lemma WithoutSpacesIgnoresTrim(s: string, drop: char -> bool)
    requires forall c :: IsJsSpace(c) ==> drop(c)
    ensures Without(Trim(s), drop) == Without(s, drop)
  {
    var r := Trim(s);
    var i := TrimSlice(s);
    Pieces(s, i, i + |r|);
    WithoutAround(s[..i], r, s[i + |r|..], drop);
  }

  /** A string is the three pieces that two cuts make of it. */
  lemma Pieces(s: string, i: nat, j: nat)
    requires i <= j <= |s|
    ensures s == s[..i] + s[i..j] + s[j..]
  {
  }

  /** Dropped characters on both sides of `r` vanish. */
  lemma WithoutAround(a: string, r: string, b: string, drop: char -> bool)
    requires forall i | 0 <= i < |a| :: drop(a[i])
    requires forall i | 0 <= i < |b| :: drop(b[i])
    ensures Without(a + r + b, drop) == Without(r, drop)
  {
    WithoutAppend(a + r, b, drop);
    WithoutAppend(a, r, drop);
    WithoutAllDropped(a, drop);
    WithoutAllDropped(b, drop);
    assert [] + Without(r, drop) + [] == Without(r, drop);
  }

  /** `parts.join(sep)`. */
  function Join(parts: seq<string>, sep: string): string {
    if |parts| == 0 then ""
    else if |parts| == 1 then parts[0]
    else parts[0] + sep + Join(parts[1..], sep)
  }

  /** `s.split(sep)` for a one-character separator: at least one part, no
      part contains `sep`. */
  function Split(s: string, sep: char): (parts: seq<string>)
    ensures |parts| >= 1
    ensures forall i | 0 <= i < |parts| :: sep !in parts[i]
  {
    if s == [] then [""]
    else
      var rest := Split(s[1..], sep);
      if s[0] == sep then [""] + rest
      else [[s[0]] + rest[0]] + rest[1..]
  }

  /** Joining the parts of a split gives the string back. */
  lemma {:induction false} JoinSplit(s: string, sep: char)
    ensures Join(Split(s, sep), [sep]) == s
  {
    if s != [] {
      JoinSplit(s[1..], sep);
      var rest := Split(s[1..], sep);
      if s[0] != sep && |rest| > 1 {
        assert Join(rest, [sep]) == rest[0] + [sep] + Join(rest[1..], [sep]);
      }
    }
  }

  /** Splitting a join of separator-free parts gives the parts back. */
  lemma {:induction false} SplitJoin(parts: seq<string>, sep: char)
    requires |parts| >= 1
    requires forall i | 0 <= i < |parts| :: sep !in parts[i]
    ensures Split(Join(parts, [sep]), sep) == parts
  {
    if |parts| == 1 {
      SplitPlain(parts[0], [], sep);
      assert parts[0] + [] == parts[0] && Split([], sep) == [""];
      assert [parts[0] + ""] == parts;
    } else {
      var tail := Join(parts[1..], [sep]);
      SplitJoin(parts[1..], sep);
      SplitSeparator(tail, sep);
      SplitPlain(parts[0], [sep] + tail, sep);
      assert Join(parts, [sep]) == parts[0] + ([sep] + tail);
      var after := Split([sep] + tail, sep);
      assert after == [""] + parts[1..];
      assert after[0] == "" && after[1..] == parts[1..];
      assert parts[0] + "" == parts[0];
      assert parts == [parts[0]] + parts[1..];
    }
  }

  /** A separator in front of `s` opens an empty first part. */
  lemma SplitSeparator(s: string, sep: char)
    ensures Split([sep] + s, sep) == [""] + Split(s, sep)
  {
    assert ([sep] + s)[1..] == s;
  }

  /** A separator-free prefix is glued to the first part of the rest. */
  lemma {:induction false} SplitPlain(p: string, s: string, sep: char)
    requires sep !in p
    requires s == [] || s[0] == sep
    ensures Split(p + s, sep) == [p + Split(s, sep)[0]] + Split(s, sep)[1..]
  {
    var t := Split(s, sep);
    if p == [] {
      assert p + s == s;
      assert t == [t[0]] + t[1..];
    } else {
      assert (p + s)[0] == p[0];
      assert (p + s)[1..] == p[1..] + s;
      SplitPlain(p[1..], s, sep);
      var rest := Split(p[1..] + s, sep);
      assert rest == [p[1..] + t[0]] + t[1..];
      assert rest[0] == p[1..] + t[0] && rest[1..] == t[1..];
      assert [p[0]] + (p[1..] + t[0]) == p + t[0];
    }
  }

  /** `w` occurs in `s` at position `i`. */
  predicate OccursAt(s: string, w: string, i: nat) {
    i + |w| <= |s| && s[i..i + |w|] == w
  }

  /** `s.includes(w)`. */
  predicate Contains(s: string, w: string) {
    exists i: nat | i <= |s| :: OccursAt(s, w, i)
  }

  /** `s.indexOf(w)`, with |s| standing for "not found" (-1 in JavaScript). */
  function IndexOf(s: string, w: string): (i: nat)
    requires w != []
    ensures i <= |s|
    ensures forall j: nat | j < i :: !OccursAt(s, w, j)
    ensures i < |s| ==> OccursAt(s, w, i)
  {
    if |s| < |w| then |s|
    else if s[..|w|] == w then 0
    else
      var k := IndexOf(s[1..], w);
      forall j: nat | 1 <= j
        ensures OccursAt(s, w, j) == OccursAt(s[1..], w, j - 1)
      {
        if j + |w| <= |s| {
          SliceOfTail(s, j, |w|);
        }
      }
      1 + k
  }

  /** A slice of `s` that starts past its head is a slice of its tail. */
  lemma SliceOfTail(s: string, j: nat, n: nat)
    requires 1 <= j && j + n <= |s|
    ensures s[j..j + n] == s[1..][j - 1..j - 1 + n]
  {
  }

  /** A slice inside a prefix of `s` is that slice of `s`. */
  lemma SliceOfPrefix(s: string, i: nat, j: nat, n: nat)
    requires j + n <= i <= |s|
    ensures s[..i][j..j + n] == s[j..j + n]
  {
  }

  /** `s.indexOf(w)` finds something exactly when `s.includes(w)`. */
  lemma IndexOfFinds(s: string, w: string)
    requires w != []
    ensures IndexOf(s, w) < |s| <==> Contains(s, w)
  {
    if Contains(s, w) {
      var j: nat :| j <= |s| && OccursAt(s, w, j);
    }
  }

  /** `s.split(w)` for a non-empty word: the pieces between the successive
      leftmost occurrences of `w`. */
  function SplitOn(s: string, w: string): (parts: seq<string>)
    requires w != []
    ensures |parts| >= 1
    decreases |s|
  {
    var i := IndexOf(s, w);
    if i == |s| then [s] else [s[..i]] + SplitOn(s[i + |w|..], w)
  }

  /** No piece of a word split contains the word. */
  lemma {:induction false} SplitOnPiecesFree(s: string, w: string)
    requires w != []
    ensures forall k | 0 <= k < |SplitOn(s, w)| :: !Contains(SplitOn(s, w)[k], w)
    decreases |s|
  {
    var i := IndexOf(s, w);
    if i == |s| {
      IndexOfFinds(s, w);
    } else {
      SplitOnFound(s, w);
      SplitOnPiecesFree(s[i + |w|..], w);
      FirstPieceFree(s, w);
    }
  }

  /** The text before the first occurrence of a word does not contain it. */
  lemma FirstPieceFree(s: string, w: string)
    requires w != [] && IndexOf(s, w) < |s|
    ensures !Contains(s[..IndexOf(s, w)], w)
  {
    var i := IndexOf(s, w);
    forall j: nat | j <= i && OccursAt(s[..i], w, j) ensures false {
      SliceOfPrefix(s, i, j, |w|);
      assert j < i && OccursAt(s, w, j);
    }
  }

  /** Joining the pieces of a word split with the word gives the string back. */
  lemma {:induction false} JoinSplitOn(s: string, w: string)
    requires w != []
    ensures Join(SplitOn(s, w), w) == s
    decreases |s|
  {
    var i := IndexOf(s, w);
    if i < |s| {
      var rest := s[i + |w|..];
      JoinSplitOn(rest, w);
      SplitOnFound(s, w);
      JoinCons(s[..i], SplitOn(rest, w), w);
      Reassemble(s, i, w);
    }
  }

  lemma Reassemble(s: string, i: nat, w: string)
    requires OccursAt(s, w, i)
    ensures s == s[..i] + w + s[i + |w|..]
  {
    Pieces(s, i, i + |w|);
  }

  lemma JoinCons(head: string, tail: seq<string>, sep: string)
    requires |tail| >= 1
    ensures Join([head] + tail, sep) == head + sep + Join(tail, sep)
  {
    assert ([head] + tail)[1..] == tail;
  }

  lemma SplitOnFound(s: string, w: string)
    requires w != [] && IndexOf(s, w) < |s|
    ensures SplitOn(s, w) == [s[..IndexOf(s, w)]] + SplitOn(s[IndexOf(s, w) + |w|..], w)
  {
  }

  /** `s.replace(w, rep)` with a string pattern: the first occurrence only. */
  function ReplaceFirstWord(s: string, w: string, rep: string): (r: string)
    requires w != []
    ensures !Contains(s, w) ==> r == s
    ensures Contains(s, w) ==>
              exists i: nat | i + |w| <= |s| ::
                && OccursAt(s, w, i)
                && (forall j: nat | j < i :: !OccursAt(s, w, j))
                && r == s[..i] + rep + s[i + |w|..]
  {
    var i := IndexOf(s, w);
    if i == |s| then s else s[..i] + rep + s[i + |w|..]
  }

  /** `toLowerCase` on the ASCII letters. */
  function LowerChar(c: char): char {
    if 'A' <= c <= 'Z' then (c as int + 32) as char else c
  }

  function Lower(s: string): (r: string)
    ensures |r| == |s|
    ensures forall i | 0 <= i < |s| :: r[i] == LowerChar(s[i])
  {
    seq(|s|, i requires 0 <= i < |s| => LowerChar(s[i]))
  }

  /** Lower-casing maps no character to or from white space or a comma. */
  lemma LowerCharClasses(c: char)
    ensures IsJsSpace(LowerChar(c)) == IsJsSpace(c)
    ensures LowerChar(c) == ',' <==> c == ','
  {
  }

  lemma LowerSuffix(s: string, i: nat)
    requires i <= |s|
    ensures Lower(s)[i..] == Lower(s[i..])
  {
  }

  /** Lower-casing commutes with removing leading white space. */
  lemma {:induction false} TrimStartLower(s: string)
    ensures TrimStart(Lower(s)) == Lower(TrimStart(s))
  {
    if s != [] {
      LowerCharClasses(s[0]);
      if IsJsSpace(s[0]) {
        LowerSuffix(s, 1);
        TrimStartLower(s[1..]);
      }
    }
  }

  /** Lower-casing commutes with removing all white space. */
  lemma {:induction false} WithoutSpacesLower(s: string)
    ensures Without(Lower(s), IsJsSpace) == Lower(Without(s, IsJsSpace))
  {
    if s != [] {
      LowerCharClasses(s[0]);
      LowerSuffix(s, 1);
      WithoutSpacesLower(s[1..]);
      if !IsJsSpace(s[0]) {
        LowerCons(s[0], Without(s[1..], IsJsSpace));
      }
    }
  }

  lemma LowerCons(c: char, rest: string)
    ensures Lower([c] + rest) == [LowerChar(c)] + Lower(rest)
  {
  }

  /** Lower-casing commutes with replacing the first comma by a point. */
  lemma ReplaceCommaLower(s: string)
    ensures ReplaceFirst(Lower(s), ',', '.') == Lower(ReplaceFirst(s, ',', '.'))
  {
    var l := Lower(s);
    forall i | 0 <= i < |s|
      ensures ReplaceFirst(l, ',', '.')[i] == Lower(ReplaceFirst(s, ',', '.'))[i]
    {
      LowerCharClasses(s[i]);
      forall j | 0 <= j < i
        ensures (l[..i][j] == ',') == (s[..i][j] == ',')
      {
        LowerCharClasses(s[j]);
      }
      assert (',' in l[..i]) == (',' in s[..i]);
    }
  }
}
