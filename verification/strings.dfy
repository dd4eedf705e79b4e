/** The JavaScript string primitives the plugin relies on, restricted to the
    cases it uses: ASCII case mapping, `endsWith`/`slice` of one character,
    `split` and `join` on a one-character separator, `replace` of the first
    occurrence of a literal string, the first match of a one-character-class
    regular expression `/c+/`, and `parseInt` in base ten. */
module Strings {
  import opened Wrappers

  // ---------------------------------------------------------------------
  // Characters

  predicate IsDigit(c: char) {
    '0' <= c <= '9'
  }

  /** The value of a digit character (and 0 for any other character). */
  function DigitValue(c: char): (d: nat)
    ensures d < 10
    ensures IsDigit(c) ==> d == c as int - '0' as int
  {
    if IsDigit(c) then c as int - '0' as int else 0
  }

  /** `toLowerCase` on one character, for the ASCII letters. */
  function LowerChar(c: char): char {
    if 'A' <= c <= 'Z' then (c as int + 32) as char else c
  }

  /** `toUpperCase` on one character, for the ASCII letters. */
  function UpperChar(c: char): char {
    if 'a' <= c <= 'z' then (c as int - 32) as char else c
  }

  function Lower(s: string): string {
    seq(|s|, k requires 0 <= k < |s| => LowerChar(s[k]))
  }

  function Upper(s: string): string {
    seq(|s|, k requires 0 <= k < |s| => UpperChar(s[k]))
  }

  // ---------------------------------------------------------------------
  // endsWith / slice(0, -1)

  predicate EndsWith(s: string, c: char) {
    |s| > 0 && s[|s| - 1] == c
  }

  /** `if (s.endsWith(c)) s = s.slice(0, -1)`: at most one trailing `c` goes. */
  function StripTrailing(s: string, c: char): (r: string)
    ensures r == s || r + [c] == s
    ensures EndsWith(s, c) <==> |r| < |s|
  {
    if EndsWith(s, c) then s[..|s| - 1] else s
  }

  // ---------------------------------------------------------------------
  // split / join on a one-character separator

  /** `s.split(sep)`: the pieces between separators, always at least one
      (the empty string splits to one empty piece). */
  function Split(s: string, sep: char): (parts: seq<string>)
    ensures |parts| >= 1
  {
    if s == [] then [[]]
    else
      var rest := Split(s[1..], sep);
      if s[0] == sep then [[]] + rest
      else [[s[0]] + rest[0]] + rest[1..]
  }

  /** No piece of a split holds the separator. */
  lemma {:induction false} SplitPieces(s: string, sep: char)
    ensures forall k :: 0 <= k < |Split(s, sep)| ==> sep !in Split(s, sep)[k]
  {
    if s != [] {
      SplitPieces(s[1..], sep);
    }
  }

  /** `parts.join(sep)`; the empty array joins to the empty string. */
  function Join(parts: seq<string>, sep: char): string {
    if |parts| == 0 then []
    else if |parts| == 1 then parts[0]
    else parts[0] + [sep] + Join(parts[1..], sep)
  }

  /** The first piece of a split is the prefix of `s` before the first
      separator: it is a prefix of `s`, holds no separator, and is either all
      of `s` or followed by a separator. */
  lemma {:induction false} SplitFirstPiece(s: string, sep: char)
    ensures var p := Split(s, sep)[0];
      |p| <= |s| && p == s[..|p|] && sep !in p && (|p| == |s| || s[|p|] == sep)
  {
    if s != [] && s[0] != sep {
      SplitFirstPiece(s[1..], sep);
    }
    SplitPieces(s, sep);
  }

  /** Joining the pieces of a split gives the string back. */
  lemma {:induction false} JoinSplit(s: string, sep: char)
    ensures Join(Split(s, sep), sep) == s
  {
    if s != [] {
      var rest := Split(s[1..], sep);
      JoinSplit(s[1..], sep);
      if s[0] == sep {
        assert ([[]] + rest)[1..] == rest;
      } else if |rest| > 1 {
        var parts := [[s[0]] + rest[0]] + rest[1..];
        assert parts[1..] == rest[1..];
        assert Join(rest, sep) == rest[0] + [sep] + Join(rest[1..], sep);
        assert Join(parts, sep) == [s[0]] + rest[0] + [sep] + Join(rest[1..], sep);
        assert s == [s[0]] + s[1..];
      } else {
        assert s == [s[0]] + s[1..];
      }
    }
  }

  /** A piece without separators glues onto the first piece of what follows it. */
  lemma {:induction false} SplitGlue(p: string, t: string, sep: char)
    requires sep !in p
    ensures Split(p + t, sep) == [p + Split(t, sep)[0]] + Split(t, sep)[1..]
  {
    if p != [] {
      assert (p + t)[0] == p[0];
      assert (p + t)[1..] == p[1..] + t;
      SplitGlue(p[1..], t, sep);
      assert [p[0]] + (p[1..] + Split(t, sep)[0]) == p + Split(t, sep)[0];
    } else {
      var r := Split(t, sep);
      assert p + t == t && p + r[0] == r[0];
      assert r == [r[0]] + r[1..];
    }
  }

  /** Splitting a join of separator-free pieces gives the pieces back. */
  lemma {:induction false} SplitJoin(parts: seq<string>, sep: char)
    requires |parts| >= 1
    requires forall k :: 0 <= k < |parts| ==> sep !in parts[k]
    ensures Split(Join(parts, sep), sep) == parts
  {
    SplitPieces([], sep);
    if |parts| == 1 {
      SplitGlue(parts[0], [], sep);
      assert parts[0] + [] == parts[0];
    } else {
      var t := Join(parts[1..], sep);
      SplitJoin(parts[1..], sep);
      assert Join(parts, sep) == parts[0] + ([sep] + t);
      SplitGlue(parts[0], [sep] + t, sep);
      assert ([sep] + t)[1..] == t;
      assert Split([sep] + t, sep) == [[]] + parts[1..];
      assert parts[0] + [] == parts[0];
    }
  }

  /** Joining two non-empty runs of pieces puts one separator between them. */
  lemma {:induction false} JoinConcat(a: seq<string>, b: seq<string>, sep: char)
    requires |a| >= 1 && |b| >= 1
    ensures Join(a + b, sep) == Join(a, sep) + [sep] + Join(b, sep)
  {
    if |a| > 1 {
      assert (a + b)[1..] == a[1..] + b;
      JoinConcat(a[1..], b, sep);
    } else {
      assert (a + b)[1..] == b;
    }
  }

  /** The last piece of a split ends the string, and is either all of it or
      preceded there by a separator. */
  lemma LastPieceIsSuffix(s: string, sep: char)
    ensures var parts := Split(s, sep);
      var last := parts[|parts| - 1];
      |last| <= |s| && s[|s| - |last|..] == last && (|last| == |s| || s[|s| - |last| - 1] == sep)
  {
    var parts := Split(s, sep);
    var n := |parts|;
    JoinSplit(s, sep);
    if n > 1 {
      assert parts[..n - 1] + [parts[n - 1]] == parts;
      JoinConcat(parts[..n - 1], [parts[n - 1]], sep);
      assert s == Join(parts[..n - 1], sep) + [sep] + parts[n - 1];
    }
  }

  // ---------------------------------------------------------------------
  // indexOf / replace of the first occurrence

  predicate OccursAt(s: string, pat: string, i: nat) {
    i + |pat| <= |s| && s[i..i + |pat|] == pat
  }

  /** The first index at or after `from` where `pat` occurs. */
  function IndexFrom(s: string, pat: string, from: nat): (r: Option<nat>)
    ensures r.Some? ==> from <= r.value && r.value + |pat| <= |s|
    decreases |s| - from
  {
    if from + |pat| > |s| then None
    else if s[from..from + |pat|] == pat then Some(from)
    else IndexFrom(s, pat, from + 1)
  }

  /** The index found is an occurrence with none before it (from `from` on),
      and `None` means there is no occurrence from `from` on. */
  lemma {:induction false} IndexFromSpec(s: string, pat: string, from: nat)
    ensures var r := IndexFrom(s, pat, from);
      (r.Some? ==> OccursAt(s, pat, r.value) && forall j: nat :: from <= j < r.value ==> !OccursAt(s, pat, j)) &&
      (r.None? ==> forall j: nat :: from <= j ==> !OccursAt(s, pat, j))
    decreases |s| - from
  {
    if from + |pat| <= |s| && s[from..from + |pat|] != pat {
      IndexFromSpec(s, pat, from + 1);
    }
  }

  /** `s.indexOf(pat)`, with `None` for -1. */
  function IndexOf(s: string, pat: string): Option<nat> {
    IndexFrom(s, pat, 0)
  }

  /** `s.replace(pat, rep)` with a string pattern: only the first occurrence
      is replaced. */
  function ReplaceFirst(s: string, pat: string, rep: string): string {
    match IndexOf(s, pat)
    case None => s
    case Some(i) => s[..i] + rep + s[i + |pat|..]
  }

  /** What `ReplaceFirst` means: without an occurrence nothing changes, and
      otherwise exactly the leftmost occurrence is replaced. */
  lemma ReplaceFirstSpec(s: string, pat: string, rep: string)
    ensures (forall j: nat :: !OccursAt(s, pat, j)) ==> ReplaceFirst(s, pat, rep) == s
    ensures forall i: nat :: OccursAt(s, pat, i) && (forall j: nat :: j < i ==> !OccursAt(s, pat, j)) ==>
      ReplaceFirst(s, pat, rep) == s[..i] + rep + s[i + |pat|..]
  {
    IndexFromSpec(s, pat, 0);
    match IndexOf(s, pat)
    case None =>
    case Some(k) =>
      forall i: nat | OccursAt(s, pat, i) && (forall j: nat :: j < i ==> !OccursAt(s, pat, j))
        ensures i == k
      {
        assert !(k < i) && !(i < k);
      }
  }

  // ---------------------------------------------------------------------
  // The first match of a regular expression `/c+/` for a character class c

  /** The classes the plugin's patterns use: `\d` and a single literal character. */
  datatype CharClass = Digit | Literal(ch: char)

  predicate InClass(c: char, cls: CharClass) {
    match cls
    case Digit => IsDigit(c)
    case Literal(ch) => c == ch
  }

  /** Index of the first character in class `cls`, or `|s|` when there is none. */
  function RunStart(s: string, cls: CharClass): (i: nat)
    ensures i <= |s|
  {
    if s == [] || InClass(s[0], cls) then 0 else 1 + RunStart(s[1..], cls)
  }

  /** No character before the start is in the class; the one at it is. */
  lemma {:induction false} RunStartSpec(s: string, cls: CharClass)
    ensures var i := RunStart(s, cls);
      (forall j :: 0 <= j < i ==> !InClass(s[j], cls)) && (i < |s| ==> InClass(s[i], cls))
  {
    if s != [] && !InClass(s[0], cls) {
      RunStartSpec(s[1..], cls);
    }
  }

  /** Length of the longest prefix of `s` whose characters are all in `cls`. */
  function RunLength(s: string, cls: CharClass): (n: nat)
    ensures n <= |s|
  {
    if s != [] && InClass(s[0], cls) then 1 + RunLength(s[1..], cls) else 0
  }

  /** The run is all in the class and stops at the end or at a character
      outside it. */
  lemma {:induction false} RunLengthSpec(s: string, cls: CharClass)
    ensures var n := RunLength(s, cls);
      (forall j :: 0 <= j < n ==> InClass(s[j], cls)) && (n == |s| || !InClass(s[n], cls))
  {
    if s != [] && InClass(s[0], cls) {
      RunLengthSpec(s[1..], cls);
    }
  }

  /** `s.match(/c+/)`, where `c` is the class `cls`: the leftmost maximal
      non-empty run of characters in `cls`, or `None` (JavaScript's `null`). */
  function FirstMatch(s: string, cls: CharClass): Option<string> {
    var i := RunStart(s, cls);
    if i == |s| then None
    else
      var n := RunLength(s[i..], cls);
      Some(s[i..i + n])
  }

  /** There is a match exactly when some character is in the class, and a
      match is non-empty and made of class characters only. */
  lemma FirstMatchSpec(s: string, cls: CharClass)
    ensures FirstMatch(s, cls).None? <==> forall j :: 0 <= j < |s| ==> !InClass(s[j], cls)
    ensures var r := FirstMatch(s, cls);
      r.Some? ==> |r.value| > 0 && forall k :: 0 <= k < |r.value| ==> InClass(r.value[k], cls)
  {
    var i := RunStart(s, cls);
    RunStartSpec(s, cls);
    if i < |s| {
      RunLengthSpec(s[i..], cls);
    }
  }

  /** The match is the one that starts at the leftmost character in `cls` and
      runs as far as the class allows. */
  lemma FirstMatchIsLeftmostMaximal(s: string, cls: CharClass, i: nat, j: nat)
    requires i < j <= |s|
    requires forall k :: 0 <= k < i ==> !InClass(s[k], cls)
    requires forall k :: i <= k < j ==> InClass(s[k], cls)
    requires j == |s| || !InClass(s[j], cls)
    ensures FirstMatch(s, cls) == Some(s[i..j])
  {
    var start := RunStart(s, cls);
    RunStartSpec(s, cls);
    assert InClass(s[i], cls);
    assert start == i;
    var rest := s[i..];
    var n := RunLength(rest, cls);
    RunLengthSpec(rest, cls);
    assert forall k :: 0 <= k < j - i ==> rest[k] == s[i + k];
    assert j < |s| ==> rest[j - i] == s[j];
    assert n == j - i;
    assert s[i..i + n] == s[i..j];
  }

  // ---------------------------------------------------------------------
  // parseInt in base ten

  predicate AllDigits(d: string) {
    forall k :: 0 <= k < |d| ==> IsDigit(d[k])
  }

  /** The number a string of decimal digits denotes (most significant first). */
  function DigitsValue(d: string): nat {
    if d == [] then 0 else 10 * DigitsValue(d[..|d| - 1]) + DigitValue(d[|d| - 1])
  }

  /** `parseInt(s)`: the value of the leading decimal digits, or `None` (NaN)
      when `s` does not start with a digit. */
  function ParseInt(s: string): Option<nat> {
    var n := RunLength(s, Digit);
    if n == 0 then None else Some(DigitsValue(s[..n]))
  }

  /** A non-empty string of digits parses to the number it denotes; a string
      that is empty or starts with something else is NaN. */
  lemma ParseIntSpec(s: string)
    ensures |s| > 0 && AllDigits(s) ==> ParseInt(s) == Some(DigitsValue(s))
    ensures s == [] || !IsDigit(s[0]) ==> ParseInt(s) == None
  {
    if |s| > 0 && AllDigits(s) {
      var n := RunLength(s, Digit);
      RunLengthSpec(s, Digit);
      assert n < |s| ==> InClass(s[n], Digit);
      assert s[..n] == s;
    }
  }
}
