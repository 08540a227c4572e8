/**
 * Path strings. The builders hand paths around as strings of decimal child indices joined by a
 * separator: `"0-1-2"` (archive builder, `-`) or `"0.1.2"` (the two later builders, `.`). The
 * user interface writes them with `String(idx)` and `path + sep + idx`; the tree helpers read them
 * back with `split(sep)` and `parseInt` / `Number`. This module models both directions on the
 * strings the interface produces, and the archive drop handler's removal of a `-end` marker.
 */
module Paths {
  import opened Wrappers

  type Path = seq<nat>

  predicate IsDigit(c: char) {
    '0' <= c <= '9'
  }

  function DigitChar(d: nat): (c: char)
    requires d < 10
    ensures IsDigit(c)
  {
    "0123456789"[d]
  }

  /** JavaScript's `String(n)` for a non-negative integer: decimal, no leading zeros. */
  function NatToString(n: nat): (s: string)
    ensures |s| > 0
    ensures forall i :: 0 <= i < |s| ==> IsDigit(s[i])
  {
    if n < 10 then [DigitChar(n)] else NatToString(n / 10) + [DigitChar(n % 10)]
  }

  /** The value of a run of decimal digits, read left to right. */
  function DigitsValue(s: string): nat
    requires forall i :: 0 <= i < |s| ==> IsDigit(s[i])
  {
    if s == [] then 0
    else
      assert IsDigit(s[|s| - 1]);
      DigitsValue(s[..|s| - 1]) * 10 + (s[|s| - 1] as int - '0' as int)
  }

  /** `parseInt(s, 10)` / `Number(s)` on one path component; None where the model leaves JavaScript's
      leniency out (empty, signs, blanks, exponents, trailing junk). */
  function ParseNat(s: string): Option<nat> {
    if s != [] && forall i :: 0 <= i < |s| ==> IsDigit(s[i]) then Some(DigitsValue(s)) else None
  }

  lemma {:induction false} DigitsValueOfNatToString(n: nat)
    ensures DigitsValue(NatToString(n)) == n
  {
    if n >= 10 {
      var s := NatToString(n);
      assert s[..|s| - 1] == NatToString(n / 10);
      DigitsValueOfNatToString(n / 10);
    }
  }

  /** Reading back what `String(n)` wrote gives `n`. */
  lemma ParseNatToString(n: nat)
    ensures ParseNat(NatToString(n)) == Some(n)
  {
    DigitsValueOfNatToString(n);
  }

  /** `String.prototype.split` with a one-character separator: always at least one part. */
  function Split(s: string, sep: char): (parts: seq<string>)
    ensures |parts| > 0
    ensures forall i :: 0 <= i < |parts| ==> sep !in parts[i]
  {
    if s == [] then [[]]
    else
      var rest := Split(s[1..], sep);
      if s[0] == sep then [[]] + rest else [[s[0]] + rest[0]] + rest[1..]
  }

  /** `Array.prototype.join` with a one-character separator. */
  function Join(parts: seq<string>, sep: char): string
    requires |parts| > 0
  {
    if |parts| == 1 then parts[0] else parts[0] + [sep] + Join(parts[1..], sep)
  }

  /** Joining the parts of a split gives the string back: with SplitJoin, `split` is exactly the
      inverse of `join` on separator-free parts. */
  lemma {:induction false} JoinSplit(s: string, sep: char)
    ensures Join(Split(s, sep), sep) == s
  {
    if s != [] {
      var rest := Split(s[1..], sep);
      JoinSplit(s[1..], sep);
      var parts := Split(s, sep);
      if s[0] == sep {
        assert parts[1..] == rest;
      } else if |rest| == 1 {
        assert parts == [[s[0]] + rest[0]];
      } else {
        assert parts[1..] == rest[1..];
        assert Join(rest, sep) == rest[0] + [sep] + Join(rest[1..], sep);
      }
      assert [s[0]] + s[1..] == s;
    }
  }

  lemma {:induction false} SplitPlain(a: string, sep: char)
    requires sep !in a
    ensures Split(a, sep) == [a]
  {
    if a != [] {
      SplitPlain(a[1..], sep);
      assert [a[0]] + a[1..] == a;
    }
  }

  lemma {:induction false} SplitAtSeparator(a: string, sep: char, b: string)
    requires sep !in a
    ensures Split(a + [sep] + b, sep) == [a] + Split(b, sep)
  {
    if a == [] {
      assert a + [sep] + b == [sep] + b;
      assert ([sep] + b)[1..] == b;
    } else {
      assert (a + [sep] + b)[1..] == a[1..] + [sep] + b;
      SplitAtSeparator(a[1..], sep, b);
      assert [a[0]] + a[1..] == a;
    }
  }

  /** Splitting a join gives the parts back when no part holds the separator. */
  lemma {:induction false} SplitJoin(parts: seq<string>, sep: char)
    requires |parts| > 0
    requires forall i :: 0 <= i < |parts| ==> sep !in parts[i]
    ensures Split(Join(parts, sep), sep) == parts
  {
    if |parts| == 1 {
      SplitPlain(parts[0], sep);
    } else {
      SplitJoin(parts[1..], sep);
      SplitAtSeparator(parts[0], sep, Join(parts[1..], sep));
    }
  }

  function ParseAll(parts: seq<string>): (r: Option<Path>)
    ensures r.Some? ==> |r.value| == |parts|
  {
    if parts == [] then Some([])
    else match (ParseNat(parts[0]), ParseAll(parts[1..]))
      case (Some(n), Some(ns)) => Some([n] + ns)
      case _ => None
  }

  /** `path.split(sep).map(n => parseInt(n, 10))` / `path.split(sep).map(Number)`. */
  function ParsePath(s: string, sep: char): (r: Option<Path>)
    ensures r.Some? ==> |r.value| > 0
  {
    ParseAll(Split(s, sep))
  }

  function Components(p: Path): (parts: seq<string>)
    ensures |parts| == |p|
    ensures forall i :: 0 <= i < |p| ==> parts[i] == NatToString(p[i])
  {
    if p == [] then [] else [NatToString(p[0])] + Components(p[1..])
  }

  /** The string the interface writes for a path: `String(i0) + sep + i1 + sep + ...`. */
  function FormatPath(p: Path, sep: char): string
    requires |p| > 0
  {
    Join(Components(p), sep)
  }

  lemma {:induction false} ParseAllComponents(p: Path)
    ensures ParseAll(Components(p)) == Some(p)
  {
    if p != [] {
      var parts := Components(p);
      ParseNatToString(p[0]);
      ParseAllComponents(p[1..]);
      assert parts[1..] == Components(p[1..]);
      assert ParseAll(parts) == Some([p[0]] + p[1..]);
      assert [p[0]] + p[1..] == p;
    }
  }

  /** Every path the interface formats parses back to itself, so the helpers' recursion
      `parts.slice(1).join(sep)` followed by a fresh `split` hands the tail of the path down intact. */
  lemma ParseFormat(p: Path, sep: char)
    requires |p| > 0
    requires !IsDigit(sep)
    ensures ParsePath(FormatPath(p, sep), sep) == Some(p)
  {
    var parts := Components(p);
    forall i | 0 <= i < |parts|
      ensures sep !in parts[i]
    {
      assert forall j :: 0 <= j < |parts[i]| ==> IsDigit(parts[i][j]);
    }
    SplitJoin(parts, sep);
    ParseAllComponents(p);
  }

  lemma {:induction false} JoinSnoc(parts: seq<string>, sep: char, last: string)
    requires |parts| > 0
    ensures Join(parts + [last], sep) == Join(parts, sep) + [sep] + last
  {
    if |parts| > 1 {
      assert (parts + [last])[1..] == parts[1..] + [last];
      JoinSnoc(parts[1..], sep, last);
    }
  }

  /** A child's path string is its parent's path string, the separator and the child's index, as in
      `${path}-${idx}` and `path + "." + idx`. */
  lemma FormatChild(p: Path, i: nat, sep: char)
    requires |p| > 0
    ensures FormatPath(p + [i], sep) == FormatPath(p, sep) + [sep] + NatToString(i)
  {
    assert Components(p + [i]) == Components(p) + [NatToString(i)];
    JoinSnoc(Components(p), sep, NatToString(i));
  }

  /** `t` occurs in `s` starting at position `j`. */
  predicate OccursAt(s: string, t: string, j: nat) {
    j + |t| <= |s| && s[j..j + |t|] == t
  }

  /** The first position at or after `j` at which `t` occurs in `s`. */
  function IndexFrom(s: string, t: string, j: nat): (r: Option<nat>)
    requires |t| > 0
    ensures r.Some? ==> j <= r.value && OccursAt(s, t, r.value)
    ensures r.Some? ==> forall k: nat :: j <= k < r.value ==> !OccursAt(s, t, k)
    ensures r.None? ==> forall k: nat :: j <= k ==> !OccursAt(s, t, k)
    decreases |s| - j
  {
    if j + |t| > |s| then None
    else if OccursAt(s, t, j) then Some(j)
    else IndexFrom(s, t, j + 1)
  }

  /** `s.indexOf(t)`: the first position at which `t` occurs in `s`, None when it does not. */
  function IndexOf(s: string, t: string): (r: Option<nat>)
    requires |t| > 0
    ensures r.Some? ==> OccursAt(s, t, r.value)
    ensures r.Some? ==> forall k: nat :: k < r.value ==> !OccursAt(s, t, k)
    ensures r.None? ==> forall k: nat :: !OccursAt(s, t, k)
  {
    IndexFrom(s, t, 0)
  }

  /** `s.replace(t, u)` with a string pattern: only the first occurrence is replaced. */
  function ReplaceFirst(s: string, t: string, u: string): string
    requires |t| > 0
  {
    match IndexOf(s, t)
    case None => s
    case Some(i) => s[..i] + u + s[i + |t|..]
  }

  /** The archive drop handler's `s.includes("end") ? s.replace("-end", "") : s`: a string without
      `end` is kept; otherwise the first `-end`, if there is one, is cut out and nothing else. */
  function StripEnd(s: string): (r: string)
    ensures IndexOf(s, "end").None? ==> r == s
    ensures IndexOf(s, "-end").None? ==> r == s
    ensures IndexOf(s, "end").Some? && IndexOf(s, "-end").Some? ==>
              var i := IndexOf(s, "-end").value;
              && |r| + 4 == |s|
              && r == s[..i] + s[i + 4..]
  {
    if IndexOf(s, "end").Some? then ReplaceFirst(s, "-end", "") else s
  }

  predicate PathChars(s: string, sep: char) {
    forall i :: 0 <= i < |s| ==> IsDigit(s[i]) || s[i] == sep
  }

  lemma {:induction false} JoinPathChars(parts: seq<string>, sep: char)
    requires |parts| > 0
    requires forall i :: 0 <= i < |parts| ==> PathChars(parts[i], sep)
    ensures PathChars(Join(parts, sep), sep)
  {
    if |parts| > 1 {
      JoinPathChars(parts[1..], sep);
    }
  }

  lemma FormatPathChars(p: Path, sep: char)
    requires |p| > 0
    ensures PathChars(FormatPath(p, sep), sep)
  {
    JoinPathChars(Components(p), sep);
  }

  /** A plain path string carries no `-end` marker and is left as it is. */
  lemma StripEndPlain(p: Path)
    requires |p| > 0
    ensures StripEnd(FormatPath(p, '-')) == FormatPath(p, '-')
  {
    var f := FormatPath(p, '-');
    FormatPathChars(p, '-');
    forall j: nat ensures !OccursAt(f, "end", j) {
      if j + 3 <= |f| {
        assert f[j..j + 3][0] == f[j];
      }
    }
  }

  /** The "after the last child" drop zones write `path + "-end"`; stripping gives `path` back. */
  lemma StripEndMarker(p: Path)
    requires |p| > 0
    ensures StripEnd(FormatPath(p, '-') + "-end") == FormatPath(p, '-')
  {
    var f := FormatPath(p, '-');
    var s := f + "-end";
    FormatPathChars(p, '-');
    assert s[|f| + 1..|f| + 4] == "end";
    assert OccursAt(s, "end", |f| + 1);
    assert s[|f|..|f| + 4] == "-end";
    assert OccursAt(s, "-end", |f|);
    forall k: nat | k < |f|
      ensures !OccursAt(s, "-end", k)
    {
      assert s[k..k + 4][1] == s[k + 1];
      assert k + 1 < |f| ==> s[k + 1] == f[k + 1];
    }
    var i := IndexOf(s, "-end").value;
    assert i == |f|;
    assert s[..i] == f;
  }
}
