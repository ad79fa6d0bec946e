/** The ECMAScript string operations the link checker relies on: `trim`,
    `startsWith`, `includes`/`indexOf`, `split` and `join` with a string
    separator, `replace` of the first occurrence of a string, and an ASCII
    `toLowerCase`. Strings are sequences of Unicode code points. */
module JsStrings {

  datatype Option<T> = None | Some(value: T)

  /** ECMAScript WhiteSpace (TAB, VT, FF, ZWNBSP and the Zs category) and
      LineTerminator (LF, CR, LS, PS): exactly what `String.prototype.trim`
      strips. */
  predicate IsWhiteSpace(c: char) {
    c == '\t' || c == '\n' || c == '\U{000B}' || c == '\U{000C}' || c == '\r' ||
    c == ' ' || c == '\U{00A0}' || c == '\U{1680}' || ('\U{2000}' <= c <= '\U{200A}') ||
    c == '\U{2028}' || c == '\U{2029}' || c == '\U{202F}' || c == '\U{205F}' ||
    c == '\U{3000}' || c == '\U{FEFF}'
  }

  /** Neither end of `s` is white space. */
  predicate IsTrimmed(s: string) {
    s == [] || (!IsWhiteSpace(s[0]) && !IsWhiteSpace(s[|s| - 1]))
  }

  function TrimStart(s: string): (r: string)
    ensures |r| <= |s| && r == s[|s| - |r|..]
    ensures r == [] || !IsWhiteSpace(r[0])
    ensures forall i :: 0 <= i < |s| - |r| ==> IsWhiteSpace(s[i])
  {
    if s != [] && IsWhiteSpace(s[0]) then TrimStart(s[1..]) else s
  }

  function TrimEnd(s: string): (r: string)
    ensures |r| <= |s| && r == s[..|r|]
    ensures r == [] || !IsWhiteSpace(r[|r| - 1])
    ensures forall i :: |r| <= i < |s| ==> IsWhiteSpace(s[i])
  {
    if s != [] && IsWhiteSpace(s[|s| - 1]) then TrimEnd(s[..|s| - 1]) else s
  }

  /** `String.prototype.trim`. */
  function Trim(s: string): string {
    TrimEnd(TrimStart(s))
  }

  /** `trim` removes a white-space prefix and a white-space suffix and keeps
      the middle unchanged, and what it returns has no white space at either end. */
  lemma TrimSpec(s: string) returns (i: nat)
    ensures var r := Trim(s);
      IsTrimmed(r) && i + |r| <= |s| && r == s[i..i + |r|] &&
      (forall k :: 0 <= k < i ==> IsWhiteSpace(s[k])) &&
      (forall k :: i + |r| <= k < |s| ==> IsWhiteSpace(s[k]))
  {
    var t := TrimStart(s);
    i := |s| - |t|;
    TrimEndOfSuffix(s, t, i);
  }

  /** Trimming the end of a suffix `t` of `s` that starts at `i`. */
  lemma TrimEndOfSuffix(s: string, t: string, i: nat)
    requires i <= |s| && t == s[i..] && (t == [] || !IsWhiteSpace(t[0]))
    ensures var r := TrimEnd(t);
      IsTrimmed(r) && i + |r| <= |s| && r == s[i..i + |r|] &&
      (forall k :: i + |r| <= k < |s| ==> IsWhiteSpace(s[k]))
  {
    var r := TrimEnd(t);
    assert r == s[i..i + |r|];
    if r != [] {
      assert r[0] == t[0];
    }
    forall k | i + |r| <= k < |s| ensures IsWhiteSpace(s[k]) {
      assert s[k] == t[k - i];
    }
  }

  /** A string without white space at its ends is left as it is. */
  lemma TrimOfTrimmed(s: string)
    requires IsTrimmed(s)
    ensures Trim(s) == s
  {
  }

  /** `trim` is idempotent. */
  lemma TrimIdempotent(s: string)
    ensures Trim(Trim(s)) == Trim(s)
  {
    var _ := TrimSpec(s);
    TrimOfTrimmed(Trim(s));
  }

  /** `String.prototype.startsWith`. */
  predicate StartsWith(s: string, prefix: string) {
    |prefix| <= |s| && s[..|prefix|] == prefix
  }

  /** `p` occurs in `s` at position `i`. */
  predicate OccursAt(s: string, p: string, i: nat) {
    i + |p| <= |s| && s[i..i + |p|] == p
  }

  /** The first position at or after `from` where `p` occurs, if any. */
  function IndexFrom(s: string, p: string, from: nat): (r: Option<nat>)
    requires from <= |s|
    ensures r.Some? ==> from <= r.value <= |s| && OccursAt(s, p, r.value)
    decreases |s| - from
  {
    if OccursAt(s, p, from) then Some(from)
    else if from == |s| then None
    else IndexFrom(s, p, from + 1)
  }

  /** The search skips no occurrence. */
  lemma {:induction false} IndexFromSkipsNothing(s: string, p: string, from: nat, j: nat)
    requires from <= j <= |s|
    requires IndexFrom(s, p, from).None? || j < IndexFrom(s, p, from).value
    ensures !OccursAt(s, p, j)
    decreases |s| - from
  {
    if from < j {
      IndexFromSkipsNothing(s, p, from + 1, j);
    }
  }

  /** `String.prototype.indexOf`: the first occurrence of `p` in `s`. */
  function IndexOf(s: string, p: string): (r: Option<nat>)
    ensures r.Some? ==> r.value <= |s| && OccursAt(s, p, r.value)
  {
    IndexFrom(s, p, 0)
  }

  /** `indexOf` finds the first occurrence: there is none before it, and none
      at all when it finds nothing. */
  lemma IndexOfSpec(s: string, p: string)
    ensures var r := IndexOf(s, p);
      forall j :: 0 <= j < (if r.Some? then r.value else |s| + 1) ==> !OccursAt(s, p, j)
  {
    var r := IndexOf(s, p);
    forall j | 0 <= j < (if r.Some? then r.value else |s| + 1) ensures !OccursAt(s, p, j) {
      if j <= |s| {
        IndexFromSkipsNothing(s, p, 0, j);
      }
    }
  }

  /** `String.prototype.includes`. */
  predicate Contains(s: string, p: string) {
    IndexOf(s, p).Some?
  }

  /** `includes` holds exactly when `p` occurs somewhere in `s`. */
  lemma ContainsIff(s: string, p: string)
    ensures Contains(s, p) <==> exists i :: 0 <= i <= |s| && OccursAt(s, p, i)
  {
    IndexOfSpec(s, p);
  }

  /** `String.prototype.replace(p, '')` with a string pattern: only the
      first occurrence is removed. */
  function RemoveFirst(s: string, p: string): (r: string)
    ensures IndexOf(s, p).None? ==> r == s
    ensures IndexOf(s, p).Some? ==>
      var i := IndexOf(s, p).value; r == s[..i] + s[i + |p|..]
  {
    match IndexOf(s, p)
    case None => s
    case Some(i) => s[..i] + s[i + |p|..]
  }

  /** `String.prototype.split` with a non-empty string separator. */
  function Split(s: string, sep: string): (parts: seq<string>)
    requires |sep| > 0
    ensures |parts| >= 1
    decreases |s|
  {
    match IndexOf(s, sep)
    case None => [s]
    case Some(i) => [s[..i]] + Split(s[i + |sep|..], sep)
  }

  /** `Array.prototype.join`. */
  function Join(parts: seq<string>, sep: string): string {
    if parts == [] then []
    else if |parts| == 1 then parts[0]
    else parts[0] + sep + Join(parts[1..], sep)
  }

  /** A join of two or more parts is the first part, the separator, and the
      join of the rest. */
  lemma JoinCons(first: string, rest: seq<string>, sep: string)
    requires rest != []
    ensures Join([first] + rest, sep) == first + sep + Join(rest, sep)
  {
    assert ([first] + rest)[1..] == rest;
  }

  /** Splitting a join on a one-character separator gives back the pieces,
      provided no piece contains the separator. */
  lemma {:induction false} SplitJoin(parts: seq<string>, c: char)
    requires |parts| >= 1
    requires forall k :: 0 <= k < |parts| ==> c !in parts[k]
    ensures Split(Join(parts, [c]), [c]) == parts
  {
    var s := Join(parts, [c]);
    if |parts| == 1 {
      NoOccurrence(parts[0], c);
    } else {
      var tail := Join(parts[1..], [c]);
      assert s == parts[0] + [c] + tail;
      var n := |parts[0]|;
      IndexOfAfterAbsent(parts[0], c, tail);
      assert s[..n] == parts[0];
      assert s[n + 1..] == tail;
      assert Split(s, [c]) == [parts[0]] + Split(tail, [c]);
      SplitJoin(parts[1..], c);
      assert parts == [parts[0]] + parts[1..];
    }
  }

  /** The first occurrence of a character is right after a prefix that does
      not contain it. */
  lemma IndexOfAfterAbsent(a: string, c: char, b: string)
    requires c !in a
    ensures IndexOf(a + [c] + b, [c]) == Some(|a|)
  {
    var s := a + [c] + b;
    assert OccursAt(s, [c], |a|);
    forall j | 0 <= j < |a| ensures !OccursAt(s, [c], j) {
      assert s[j] == a[j];
    }
    IndexOfSpec(s, [c]);
  }

  /** A slice of a string keeps a character out if the string does. */
  lemma SliceKeepsAbsent(s: string, c: char, i: nat, j: nat)
    requires i <= j <= |s| && c !in s
    ensures c !in s[i..j]
  {
    forall k | i <= k < j ensures s[k] != c {
      assert s[k] in s;
    }
  }

  lemma NoOccurrence(s: string, c: char)
    requires c !in s
    ensures IndexOf(s, [c]).None?
  {
    forall j | 0 <= j <= |s| ensures !OccursAt(s, [c], j) {
      if j + 1 <= |s| {
        assert s[j..j + 1] == [s[j]];
        assert s[j] in s;
      }
    }
  }

  /** No piece of a split on one character contains that character. */
  lemma {:induction false} SplitPiecesAvoid(s: string, c: char)
    ensures forall k :: 0 <= k < |Split(s, [c])| ==> c !in Split(s, [c])[k]
    decreases |s|
  {
    IndexOfSpec(s, [c]);
    match IndexOf(s, [c])
    case None =>
      NotInWithoutOccurrence(s, c, |s|);
    case Some(i) =>
      NotInWithoutOccurrence(s, c, i);
      SplitPiecesAvoid(s[i + 1..], c);
      assert Split(s, [c]) == [s[..i]] + Split(s[i + 1..], [c]);
  }

  lemma NotInWithoutOccurrence(s: string, c: char, n: nat)
    requires n <= |s|
    requires forall j :: 0 <= j < n ==> !OccursAt(s, [c], j)
    ensures c !in s[..n]
  {
    forall j | 0 <= j < n ensures s[j] != c {
      assert !OccursAt(s, [c], j);
      assert s[j..j + 1] == [s[j]];
    }
  }

  /** `trim` keeps only characters of its input. */
  lemma TrimKeepsAbsent(s: string, c: char)
    requires c !in s
    ensures c !in Trim(s)
  {
    var _ := TrimSpec(s);
  }

  /** `s.split(sep)[1]`: the text between the first and second occurrence of
      `sep` (or the end of `s`); `undefined` (None) when `sep` does not occur. */
  function SecondSegment(s: string, sep: string): Option<string>
    requires |sep| > 0
  {
    var parts := Split(s, sep);
    if |parts| > 1 then Some(parts[1]) else None
  }

  /** The second piece of a split is defined exactly when the separator
      occurs, and is then the text after the first occurrence up to the next
      occurrence or the end. */
  lemma SecondSegmentSpec(s: string, sep: string)
    requires |sep| > 0
    ensures SecondSegment(s, sep).Some? <==> Contains(s, sep)
    ensures SecondSegment(s, sep).Some? ==>
      var i := IndexOf(s, sep).value;
      var v := SecondSegment(s, sep).value;
      StartsWith(s[i + |sep|..], v) && !Contains(v, sep) &&
      (i + |sep| + |v| == |s| || OccursAt(s, sep, i + |sep| + |v|))
  {
    match IndexOf(s, sep)
    case None =>
      assert Split(s, sep) == [s];
    case Some(i) =>
      var rest := s[i + |sep|..];
      SecondSegmentAt(s, sep, i);
      FirstPiece(rest, sep);
      var v := Split(rest, sep)[0];
      if |v| < |rest| {
        OccursShifted(s, sep, i + |sep|, |v|);
      }
  }

  /** The second piece is the first piece of what follows the first separator. */
  lemma SecondSegmentAt(s: string, sep: string, i: nat)
    requires |sep| > 0 && IndexOf(s, sep) == Some(i)
    ensures SecondSegment(s, sep) == Some(Split(s[i + |sep|..], sep)[0])
  {
    SplitAt(s, sep, i);
    SecondOfSplitAt(s, sep, i);
  }

  /** Splitting cuts at the first occurrence and goes on after it. */
  lemma SplitAt(s: string, sep: string, i: nat)
    requires |sep| > 0 && IndexOf(s, sep) == Some(i)
    ensures i + |sep| <= |s|
    ensures Split(s, sep) == [s[..i]] + Split(s[i + |sep|..], sep)
  {
  }

  lemma SecondOfSplitAt(s: string, sep: string, i: nat)
    requires |sep| > 0 && i + |sep| <= |s|
    requires Split(s, sep) == [s[..i]] + Split(s[i + |sep|..], sep)
    ensures SecondSegment(s, sep) == Some(Split(s[i + |sep|..], sep)[0])
  {
  }

  /** An occurrence in a suffix is an occurrence in the whole string. */
  lemma OccursShifted(s: string, p: string, off: nat, j: nat)
    requires off <= |s| && OccursAt(s[off..], p, j)
    ensures OccursAt(s, p, off + j)
  {
    assert s[off + j..off + j + |p|] == s[off..][j..j + |p|];
  }

  /** The first piece of a split is the text up to the first occurrence of
      the separator, or all of it. */
  lemma FirstPiece(s: string, sep: string)
    requires |sep| > 0
    ensures var v := Split(s, sep)[0];
      StartsWith(s, v) && !Contains(v, sep) && (|v| == |s| || OccursAt(s, sep, |v|))
  {
    var v := Split(s, sep)[0];
    IndexOfSpec(s, sep);
    match IndexOf(s, sep)
    case None =>
      assert v == s;
    case Some(j) =>
      assert v == s[..j];
      forall k | 0 <= k <= |v| ensures !OccursAt(v, sep, k) {
        if k + |sep| <= |v| {
          assert k < j && !OccursAt(s, sep, k);
          assert v[k..k + |sep|] == s[k..k + |sep|];
        }
      }
      ContainsIff(v, sep);
  }

  /** ASCII `toLowerCase` of one character. */
  function LowerChar(c: char): char {
    if 'A' <= c <= 'Z' then (c as int + 32) as char else c
  }

  /** `toLowerCase`, on the ASCII letters. */
  function ToLower(s: string): (r: string)
    ensures |r| == |s|
    ensures forall i :: 0 <= i < |s| ==> r[i] == LowerChar(s[i])
  {
    if s == [] then [] else [LowerChar(s[0])] + ToLower(s[1..])
  }
}
