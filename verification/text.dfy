/**
  String primitives the comparison page relies on: JavaScript's `trim`,
  `startsWith` and `String.prototype.split` with a literal separator.
  `Join` is not used by the page; it is the reference that states what
  `split` cuts apart. Strings are sequences of characters.
 */
module Text {

  datatype Option<T> = None | Some(value: T)

  /** The characters `trim` and the regular-expression class `\s` treat as
      white space (ASCII white space, line terminators, NBSP, BOM, LS, PS). */
  predicate IsWs(c: char) {
    c == ' ' || c == '\t' || c == '\n' || c == '\r' || c == '\U{B}' || c == '\U{C}'
    || c == '\U{A0}' || c == '\U{FEFF}' || c == '\U{2028}' || c == '\U{2029}'
  }

  /** A string with no white space at either end. */
  predicate Trimmed(s: string) {
    s == [] || (!IsWs(s[0]) && !IsWs(s[|s| - 1]))
  }

  /** `s.trimStart()`: drops the leading white space and nothing else. */
  function TrimStart(s: string): (r: string)
    ensures |r| <= |s| && r == s[|s| - |r|..]
    ensures r == [] || !IsWs(r[0])
  {
    if |s| > 0 && IsWs(s[0]) then TrimStart(s[1..]) else s
  }

  /** `trimStart` drops white space only. */
  lemma {:induction false} TrimStartDropsWs(s: string)
    ensures forall k :: 0 <= k < |s| - |TrimStart(s)| ==> IsWs(s[k])
    decreases |s|
  {
    if |s| > 0 && IsWs(s[0]) {
      TrimStartDropsWs(s[1..]);
      assert forall k :: 1 <= k < |s| ==> s[k] == s[1..][k - 1];
    }
  }

  /** `s.trimEnd()`: drops the trailing white space and nothing else. */
  function TrimEnd(s: string): (r: string)
    ensures |r| <= |s| && r == s[..|r|]
    ensures r == [] || !IsWs(r[|r| - 1])
  {
    if |s| > 0 && IsWs(s[|s| - 1]) then TrimEnd(s[..|s| - 1]) else s
  }

  /** `trimEnd` drops white space only. */
  lemma {:induction false} TrimEndDropsWs(s: string)
    ensures forall k :: |TrimEnd(s)| <= k < |s| ==> IsWs(s[k])
    decreases |s|
  {
    if |s| > 0 && IsWs(s[|s| - 1]) {
      TrimEndDropsWs(s[..|s| - 1]);
    }
  }

  /** `s.trim()`: the result has no white space at either end. */
  function Trim(s: string): (r: string)
    ensures Trimmed(r)
    ensures |r| <= |s|
  {
    TrimEnd(TrimStart(s))
  }

  /** Every character of `s.trim()` comes from `s`. */
  lemma TrimChars(s: string)
    ensures forall c :: c in Trim(s) ==> c in s
  {
    var t := TrimStart(s);
    var r := TrimEnd(t);
    assert forall k :: 0 <= k < |r| ==> r[k] == s[|s| - |t| + k];
  }

  /** `trim` skips a leading white-space character. */
  lemma TrimSkip(s: string)
    requires |s| > 0 && IsWs(s[0])
    ensures Trim(s) == Trim(s[1..])
  {
  }

  /** Without leading white space, `trim` only drops trailing white space. */
  lemma TrimUnpadded(s: string)
    requires |s| == 0 || !IsWs(s[0])
    ensures Trim(s) == TrimEnd(s)
  {
  }

  /** Without leading white space, a non-empty string keeps its first
      character under `trim`. */
  lemma TrimKeepsFirst(s: string)
    requires |s| > 0 && !IsWs(s[0])
    ensures |Trim(s)| > 0 && Trim(s)[0] == s[0]
  {
    TrimUnpadded(s);
    TrimEndDropsWs(s);
  }

  /** Trimming a string that is already trimmed changes nothing. */
  lemma TrimOfTrimmed(s: string)
    requires Trimmed(s)
    ensures Trim(s) == s
  {
  }

  /** White space at the end does not change `trimEnd`. */
  lemma {:induction false} TrimEndWs(v: string, w: string)
    requires forall i :: 0 <= i < |w| ==> IsWs(w[i])
    ensures TrimEnd(v + w) == TrimEnd(v)
    decreases |w|
  {
    if w == [] {
      assert v + w == v;
    } else {
      assert (v + w)[..|v + w| - 1] == v + w[..|w| - 1];
      TrimEndWs(v, w[..|w| - 1]);
    }
  }

  /** A string of white space trims to nothing. */
  lemma {:induction false} TrimStartOfWs(w: string)
    requires forall i :: 0 <= i < |w| ==> IsWs(w[i])
    ensures TrimStart(w) == []
    decreases |w|
  {
    if w != [] {
      TrimStartOfWs(w[1..]);
    }
  }

  /** White space at the end does not change `trim`. */
  lemma {:induction false} TrimWs(u: string, w: string)
    requires forall i :: 0 <= i < |w| ==> IsWs(w[i])
    ensures Trim(u + w) == Trim(u)
    decreases |u|
  {
    if u == [] {
      assert u + w == w;
      TrimStartOfWs(w);
    } else if IsWs(u[0]) {
      assert (u + w)[1..] == u[1..] + w;
      TrimSkip(u + w);
      TrimSkip(u);
      TrimWs(u[1..], w);
    } else {
      TrimUnpadded(u + w);
      TrimUnpadded(u);
      TrimEndWs(u, w);
    }
  }

  /** `trimStart` drops any number of blanks in front of a string. */
  lemma {:induction false} TrimStartBlanks(pad: string, q: string)
    requires forall i :: 0 <= i < |pad| ==> pad[i] == ' '
    ensures TrimStart(pad + q) == TrimStart(q)
    decreases |pad|
  {
    if pad == [] {
      assert pad + q == q;
    } else {
      assert (pad + q)[0] == ' ';
      assert (pad + q)[1..] == pad[1..] + q;
      TrimStartBlanks(pad[1..], q);
    }
  }

  /** Any number of blanks before a trimmed string are removed by `trim`. */
  lemma TrimAfterBlanks(pad: string, q: string)
    requires forall i :: 0 <= i < |pad| ==> pad[i] == ' '
    requires Trimmed(q)
    ensures Trim(pad + q) == q
  {
    TrimStartBlanks(pad, q);
    TrimOfTrimmed(q);
  }

  /** `s.startsWith(prefix)`. */
  predicate StartsWith(s: string, prefix: string) {
    |prefix| <= |s| && s[..|prefix|] == prefix
  }

  /** `sep` occurs in `s` at position `k`. */
  predicate OccursAt<T(==)>(s: seq<T>, sep: seq<T>, k: nat) {
    k + |sep| <= |s| && s[k..k + |sep|] == sep
  }

  /** `sep` occurs nowhere in `s`. */
  predicate Free<T(==)>(s: seq<T>, sep: seq<T>) {
    forall k :: 0 <= k <= |s| ==> !OccursAt(s, sep, k)
  }

  /** The leftmost occurrence of `sep` in `s` at or after `from`
      (`s.indexOf(sep, from)`), or `None`. */
  function IndexOf<T(==)>(s: seq<T>, sep: seq<T>, from: nat): (r: Option<nat>)
    ensures r.Some? ==> from <= r.value && OccursAt(s, sep, r.value)
    ensures r.Some? ==> forall k :: from <= k < r.value ==> !OccursAt(s, sep, k)
    ensures r.None? ==> forall k: nat :: from <= k ==> !OccursAt(s, sep, k)
    decreases |s| - from
  {
    if from + |sep| > |s| then None
    else if OccursAt(s, sep, from) then Some(from)
    else IndexOf(s, sep, from + 1)
  }

  /** `s.split(sep)` for a non-empty literal separator: the pieces between
      the leftmost, non-overlapping occurrences of `sep`. There is always at
      least one piece (`"".split(sep)` is `[""]`) and no piece contains `sep`. */
  function Split<T(==)>(s: seq<T>, sep: seq<T>): (parts: seq<seq<T>>)
    requires |sep| > 0
    ensures |parts| >= 1
    ensures forall i :: 0 <= i < |parts| ==> Free(parts[i], sep)
    decreases |s|
  {
    match IndexOf(s, sep, 0)
    case None => [s]
    case Some(k) =>
      var head := s[..k];
      assert Free(head, sep) by {
        forall j | 0 <= j <= |head| && OccursAt(head, sep, j) ensures false {
          assert s[j..j + |sep|] == head[j..j + |sep|];
          assert OccursAt(s, sep, j);
        }
      }
      [head] + Split(s[k + |sep|..], sep)
  }

  /** The pieces with `sep` between each two, as `parts.join(sep)` would
      give; no parts give the empty sequence. A reference for `Split`. */
  function Join<T>(parts: seq<seq<T>>, sep: seq<T>): seq<T> {
    if |parts| == 0 then []
    else if |parts| == 1 then parts[0]
    else parts[0] + sep + Join(parts[1..], sep)
  }

  /** The leftmost occurrence is the one before which there is none. */
  lemma IndexOfIs<T>(s: seq<T>, sep: seq<T>, j: nat)
    requires OccursAt(s, sep, j)
    requires forall i :: 0 <= i < j ==> !OccursAt(s, sep, i)
    ensures IndexOf(s, sep, 0) == Some(j)
  {
  }

  /** `"".split(sep)` is `[""]`. */
  lemma SplitOfEmpty<T>(sep: seq<T>)
    requires |sep| > 0
    ensures Split([], sep) == [[]]
  {
    assert IndexOf([], sep, 0).None?;
  }

  /** Joining `[c, y] + ys` is joining `[c + sep + y] + ys`. */
  lemma JoinCons<T>(c: seq<T>, y: seq<T>, ys: seq<seq<T>>, sep: seq<T>)
    ensures Join([c] + ([y] + ys), sep) == Join([c + sep + y] + ys, sep)
  {
    assert ([c] + ([y] + ys))[1..] == [y] + ys;
    assert ([y] + ys)[1..] == ys;
    if ys != [] {
      assert ([c + sep + y] + ys)[1..] == ys;
    }
  }

  /** A sequence that does not contain the separator's first element is a
      single piece. */
  lemma SplitWithout<T>(s: seq<T>, sep: seq<T>)
    requires |sep| > 0 && sep[0] !in s
    ensures Split(s, sep) == [s]
  {
    forall k | 0 <= k < |s| ensures !OccursAt(s, sep, k) {
      assert s[k] in s;
    }
    assert IndexOf(s, sep, 0).None?;
  }

  /** The first piece ends where the separator first occurs. */
  lemma SplitAt<T>(a: seq<T>, sep: seq<T>, z: seq<T>)
    requires |sep| > 0
    requires forall k :: 0 <= k < |a| ==> !OccursAt(a + sep + z, sep, k)
    ensures Split(a + sep + z, sep) == [a] + Split(z, sep)
  {
    var s := a + sep + z;
    assert s[|a|..|a| + |sep|] == sep;
    IndexOfIs(s, sep, |a|);
    assert s[..|a|] == a;
    assert s[|a| + |sep|..] == z;
  }

  /** A first piece that does not contain the separator's first element ends
      at the first occurrence of the separator. */
  lemma SplitFirst<T>(a: seq<T>, sep: seq<T>, z: seq<T>)
    requires |sep| > 0 && sep[0] !in a
    ensures Split(a + sep + z, sep) == [a] + Split(z, sep)
  {
    var s := a + sep + z;
    forall k | 0 <= k < |a| ensures !OccursAt(s, sep, k) {
      assert s[k] == a[k];
    }
    SplitAt(a, sep, z);
  }

  /** Splitting and joining back with the same separator gives the input. */
  lemma {:induction false} JoinOfSplit<T>(s: seq<T>, sep: seq<T>)
    requires |sep| > 0
    ensures Join(Split(s, sep), sep) == s
    decreases |s|
  {
    match IndexOf(s, sep, 0)
    case None =>
    case Some(k) =>
      assert OccursAt(s, sep, k);
      var rest := s[k + |sep|..];
      var parts := Split(s, sep);
      assert parts == [s[..k]] + Split(rest, sep);
      assert parts[1..] == Split(rest, sep);
      calc {
        Join(parts, sep);
        s[..k] + sep + Join(Split(rest, sep), sep);
        { JoinOfSplit(rest, sep); }
        s[..k] + sep + rest;
        { assert s[k..k + |sep|] == sep; }
        s;
      }
  }

  /** A one-character separator occurs exactly where that character stands. */
  lemma OccursAtChar<T>(s: seq<T>, c: T, k: nat)
    ensures OccursAt(s, [c], k) <==> k < |s| && s[k] == c
  {
    if k < |s| {
      assert s[k..k + 1] == [s[k]];
    }
  }

  /** With a one-character separator, `c` is free in a piece exactly when the
      piece does not contain `c`. */
  lemma FreeOfChar<T>(s: seq<T>, c: T)
    ensures Free(s, [c]) <==> c !in s
  {
    forall k | 0 <= k <= |s| {
      OccursAtChar(s, c, k);
    }
  }

  /** No piece of a split on a one-character separator contains it. */
  lemma SplitOnCharPieces<T>(s: seq<T>, c: T)
    ensures forall p :: p in Split(s, [c]) ==> c !in p
  {
    forall p | p in Split(s, [c]) ensures c !in p {
      FreeOfChar(p, c);
    }
  }

  /** Joining pieces free of `c` with `c` and splitting on `c` again gives
      the pieces back. */
  lemma {:induction false} SplitOfJoin<T>(parts: seq<seq<T>>, c: T)
    requires |parts| >= 1
    requires forall p :: p in parts ==> c !in p
    ensures Split(Join(parts, [c]), [c]) == parts
    decreases |parts|
  {
    if |parts| == 1 {
      SplitWithout(parts[0], [c]);
    } else {
      SplitOfJoin(parts[1..], c);
      SplitFirst(parts[0], [c], Join(parts[1..], [c]));
      assert parts == [parts[0]] + parts[1..];
    }
  }

  /** A join of a piece in front of a non-empty list puts one separator
      after that piece. */
  lemma JoinFront<T>(x: seq<T>, ys: seq<seq<T>>, sep: seq<T>)
    requires |ys| >= 1
    ensures Join([x] + ys, sep) == x + sep + Join(ys, sep)
  {
    assert ([x] + ys)[1..] == ys;
  }

  /** Joining two non-empty lists of pieces puts one separator between them. */
  lemma {:induction false} JoinAppend<T>(p: seq<seq<T>>, q: seq<seq<T>>, sep: seq<T>)
    requires |p| >= 1 && |q| >= 1
    ensures Join(p + q, sep) == Join(p, sep) + sep + Join(q, sep)
    decreases |p|
  {
    if |p| > 1 {
      JoinAppend(p[1..], q, sep);
      assert (p + q)[1..] == p[1..] + q;
    }
  }

  /** Splitting on a one-character separator distributes over a separator
      occurrence: the pieces of `a + [c] + z` are those of `a` then those of `z`. */
  lemma SplitAround<T>(a: seq<T>, c: T, z: seq<T>)
    ensures Split(a + [c] + z, [c]) == Split(a, [c]) + Split(z, [c])
  {
    var p, q := Split(a, [c]), Split(z, [c]);
    JoinOfSplit(a, [c]);
    JoinOfSplit(z, [c]);
    JoinAppend(p, q, [c]);
    SplitOnCharPieces(a, c);
    SplitOnCharPieces(z, c);
    SplitOfJoin(p + q, c);
  }

  /** An element of a join is an element of one of its parts or of a
      separator that sits between two parts. */
  lemma {:induction false} InJoin<T>(parts: seq<seq<T>>, sep: seq<T>, x: T)
    ensures x in Join(parts, sep) <==>
            (exists i :: 0 <= i < |parts| && x in parts[i]) || (|parts| >= 2 && x in sep)
    decreases |parts|
  {
    if |parts| >= 2 {
      InJoin(parts[1..], sep, x);
      if x in parts[0] + sep + Join(parts[1..], sep) {
        if x in Join(parts[1..], sep) && !(|parts[1..]| >= 2 && x in sep) {
          var i :| 0 <= i < |parts[1..]| && x in parts[1..][i];
          assert x in parts[i + 1];
        }
      }
      if exists i :: 0 <= i < |parts| && x in parts[i] {
        var i :| 0 <= i < |parts| && x in parts[i];
        if i > 0 {
          assert x in parts[1..][i - 1];
        }
      }
    }
  }
}
