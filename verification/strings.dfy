/** Models of the helpers of Go's `strings` package that the message codec
    and the command router use. A Go string is a sequence of bytes; here it
    is a `string`, one character per byte. */
module Strings {

  /** True when `sep` occurs in `s` starting at position `i`. */
  predicate OccursAt(s: string, sep: string, i: int)
  {
    0 <= i && i + |sep| <= |s| && s[i..i + |sep|] == sep
  }

  /** strings.Index: the position of the first occurrence of `sep` in `s`,
      or -1 when there is none. */
  function Index(s: string, sep: string): (r: int)
    ensures -1 <= r <= |s|
    ensures r >= 0 ==> OccursAt(s, sep, r)
    ensures forall j :: 0 <= j < r ==> !OccursAt(s, sep, j)
    ensures r == -1 ==> forall j :: !OccursAt(s, sep, j)
  {
    IndexFrom(s, sep, 0)
  }

  /** The search behind `Index`, started at position `i` of `s`. */
  function IndexFrom(s: string, sep: string, i: nat): (r: int)
    requires i <= |s|
    requires forall j :: 0 <= j < i ==> !OccursAt(s, sep, j)
    ensures -1 <= r <= |s|
    ensures r >= 0 ==> i <= r && OccursAt(s, sep, r)
    ensures forall j :: 0 <= j < r ==> !OccursAt(s, sep, j)
    ensures r == -1 ==> forall j :: !OccursAt(s, sep, j)
    decreases |s| - i
  {
    if i + |sep| > |s| then -1
    else if s[i..i + |sep|] == sep then i
    else IndexFrom(s, sep, i + 1)
  }

  /** strings.Contains. */
  predicate Contains(s: string, sub: string)
  {
    Index(s, sub) >= 0
  }

  /** A string that does not contain `sub` has no occurrence of it at `j`. */
  lemma NotContainsAt(s: string, sub: string, j: int)
    requires !Contains(s, sub)
    ensures !OccursAt(s, sub, j)
  {
  }

  /** `s` contains `sub` exactly when `sub` occurs at some position of `s`. */
  lemma ContainsOccurs(s: string, sub: string)
    ensures Contains(s, sub) <==> exists i :: OccursAt(s, sub, i)
  {
  }

  /** strings.HasPrefix. */
  predicate HasPrefix(s: string, prefix: string)
  {
    |prefix| <= |s| && s[..|prefix|] == prefix
  }

  /** `s` starts with `prefix` exactly when it is `prefix` followed by
      something. */
  lemma HasPrefixConcat(s: string, prefix: string)
    ensures HasPrefix(s, prefix) <==> exists rest :: s == prefix + rest
  {
    if HasPrefix(s, prefix) {
      assert s == prefix + s[|prefix|..];
    }
  }

  /** strings.TrimPrefix: removes `prefix` once, if `s` starts with it. */
  function TrimPrefix(s: string, prefix: string): (r: string)
    ensures HasPrefix(s, prefix) ==> prefix + r == s
    ensures !HasPrefix(s, prefix) ==> r == s
  {
    if HasPrefix(s, prefix) then s[|prefix|..] else s
  }

  /** Removing a prefix never introduces a character. */
  lemma TrimPrefixKeepsAbsent(s: string, prefix: string, c: char)
    requires c !in s
    ensures c !in TrimPrefix(s, prefix)
  {
    if HasPrefix(s, prefix) {
      var r := TrimPrefix(s, prefix);
      assert forall k :: 0 <= k < |r| ==> r[k] == s[|prefix| + k];
    }
  }

  /** strings.TrimLeft: removes every leading character that is in `cutset`. */
  function TrimLeft(s: string, cutset: string): (r: string)
    ensures |r| <= |s| && r == s[|s| - |r|..]
    ensures forall i :: 0 <= i < |s| - |r| ==> s[i] in cutset
    ensures r == "" || r[0] !in cutset
  {
    if |s| > 0 && s[0] in cutset then
      var r := TrimLeft(s[1..], cutset);
      assert s[1..][|s| - 1 - |r|..] == s[|s| - |r|..];
      r
    else s
  }

  /** strings.TrimRight: removes every trailing character that is in `cutset`. */
  function TrimRight(s: string, cutset: string): (r: string)
    ensures |r| <= |s| && r == s[..|r|]
    ensures forall i :: |r| <= i < |s| ==> s[i] in cutset
    ensures r == "" || r[|r| - 1] !in cutset
  {
    if |s| > 0 && s[|s| - 1] in cutset then TrimRight(s[..|s| - 1], cutset) else s
  }

  /** The ASCII white-space characters Go's strings.TrimSpace removes:
      space, tab, line feed, carriage return, vertical tab, form feed. */
  const AsciiSpace: string := " \t\n\r\U{000B}\U{000C}"

  /** Every character of `x` is in `cutset`. */
  predicate AllIn(x: string, cutset: string)
  {
    forall k :: 0 <= k < |x| ==> x[k] in cutset
  }

  /** strings.TrimSpace, restricted to ASCII white space: the slice of `s`
      between its leading and its trailing run of white space. */
  function TrimSpace(s: string): (r: string)
    ensures r == "" <==> forall i :: 0 <= i < |s| ==> s[i] in AsciiSpace
    ensures r != "" ==> r[0] !in AsciiSpace && r[|r| - 1] !in AsciiSpace
    ensures |s| > 0 && s[0] !in AsciiSpace && s[|s| - 1] !in AsciiSpace ==> r == s
  {
    var left := TrimLeft(s, AsciiSpace);
    TrimRight(left, AsciiSpace)
  }

  /** What `TrimSpace` keeps is `s` without a leading and a trailing run of
      white space. Stated apart from `TrimSpace`'s contract, which is in
      scope at every parse. */
  lemma TrimSpaceSlice(s: string)
    ensures exists a, b {:trigger AllIn(a, AsciiSpace), AllIn(b, AsciiSpace)} ::
      s == a + TrimSpace(s) + b && AllIn(a, AsciiSpace) && AllIn(b, AsciiSpace)
  {
    TrimBothSlice(s, AsciiSpace);
  }

  /** Trimming a cutset on the left and then on the right leaves the text
      between the two runs of cutset characters. */
  lemma TrimBothSlice(s: string, cutset: string)
    ensures var r := TrimRight(TrimLeft(s, cutset), cutset);
      exists a, b {:trigger AllIn(a, cutset), AllIn(b, cutset)} ::
        s == a + r + b && AllIn(a, cutset) && AllIn(b, cutset)
  {
    var left := TrimLeft(s, cutset);
    SliceBetweenRuns(s, left, TrimRight(left, cutset), cutset);
  }

  /** A suffix `left` of `s` after a run of cutset characters, and a prefix
      `r` of `left` before another such run, split `s` into the run, `r`
      and the second run. */
  lemma SliceBetweenRuns(s: string, left: string, r: string, cutset: string)
    requires |left| <= |s| && left == s[|s| - |left|..]
    requires forall k :: 0 <= k < |s| - |left| ==> s[k] in cutset
    requires |r| <= |left| && r == left[..|r|]
    requires forall k :: |r| <= k < |left| ==> left[k] in cutset
    ensures exists a, b {:trigger AllIn(a, cutset), AllIn(b, cutset)} ::
      s == a + r + b && AllIn(a, cutset) && AllIn(b, cutset)
  {
    var i := |s| - |left|;
    var a, b := s[..i], left[|r|..];
    assert left == r + b;
    assert s == a + left;
    assert AllIn(b, cutset) by {
      forall k | 0 <= k < |b| ensures b[k] in cutset {
        assert b[k] == left[|r| + k];
      }
    }
    assert AllIn(a, cutset);
    assert s == a + r + b;
  }

  /** Joins `parts` with `sep` between neighbours (strings.Join). */
  function Join(parts: seq<string>, sep: string): string
  {
    if |parts| == 0 then ""
    else if |parts| == 1 then parts[0]
    else parts[0] + sep + Join(parts[1..], sep)
  }

  /** strings.SplitN for a positive count `n` and a non-empty `sep`: at most
      `n` pieces, the last of which is the unsplit remainder. */
  function SplitN(s: string, sep: string, n: nat): (r: seq<string>)
    requires sep != "" && n >= 1
    ensures 1 <= |r| <= n
    ensures Join(r, sep) == s
    ensures n >= 2 ==> (|r| >= 2 <==> Contains(s, sep))
    decreases n
  {
    var i := Index(s, sep);
    if n == 1 || i < 0 then [s]
    else
      var rest := SplitN(s[i + |sep|..], sep, n - 1);
      JoinAround(s, sep, i, rest);
      [s[..i]] + rest
  }

  /** No piece `SplitN` makes holds `sep`, except a last one that kept the
      unsplit remainder because the count ran out. */
  lemma {:induction false} SplitNPiecesFree(s: string, sep: string, n: nat)
    requires sep != "" && n >= 1
    ensures PiecesFree(SplitN(s, sep, n), sep, n)
    decreases n
  {
    var i := Index(s, sep);
    if n > 1 && i >= 0 {
      var rest := SplitN(s[i + |sep|..], sep, n - 1);
      SplitNUnfold(s, sep, n);
      FirstPieceFree(s, sep);
      SplitNPiecesFree(s[i + |sep|..], sep, n - 1);
      SplitNPieces(s[..i], sep, n, rest);
    } else {
      SplitNPiecesBase(s, sep, n);
    }
  }

  /** The base of `SplitNPiecesFree`: a single piece holds `sep` only when
      the count was one. */
  lemma SplitNPiecesBase(s: string, sep: string, n: nat)
    requires sep != "" && n >= 1 && (n == 1 || Index(s, sep) < 0)
    ensures PiecesFree(SplitN(s, sep, n), sep, n)
  {
    SplitNWhole(s, sep, n);
  }

  /** `SplitN` leaves the text whole when the count is one or `sep` is absent. */
  lemma SplitNWhole(s: string, sep: string, n: nat)
    requires sep != "" && n >= 1 && (n == 1 || Index(s, sep) < 0)
    ensures SplitN(s, sep, n) == [s]
  {}

  /** One step of `SplitN` when the count allows another cut and `sep` occurs. */
  lemma SplitNUnfold(s: string, sep: string, n: nat)
    requires sep != "" && n >= 2 && Index(s, sep) >= 0
    ensures var i := Index(s, sep);
      SplitN(s, sep, n) == [s[..i]] + SplitN(s[i + |sep|..], sep, n - 1)
  {}

  /** The step of `SplitN` and `Split`: the text before an occurrence of
      `sep`, then the pieces of the text after it, join back to the whole. */
  lemma JoinAround(s: string, sep: string, i: nat, rest: seq<string>)
    requires i + |sep| <= |s| && s[i..i + |sep|] == sep
    requires |rest| >= 1 && Join(rest, sep) == s[i + |sep|..]
    ensures Join([s[..i]] + rest, sep) == s
  {
    SliceAround(s, i, i + |sep|);
    JoinCons(s[..i], rest, sep);
  }

  /** A string is its three slices around positions `i <= j`, concatenated. */
  lemma SliceAround(s: string, i: nat, j: nat)
    requires i <= j <= |s|
    ensures s == s[..i] + s[i..j] + s[j..]
  {
  }

  /** The step of `SplitN`: a first piece free of `sep` keeps every piece
      but the last free of it. */
  lemma SplitNPieces(a: string, sep: string, n: nat, rest: seq<string>)
    requires n >= 2 && !Contains(a, sep)
    requires 1 <= |rest| <= n - 1 && PiecesFree(rest, sep, n - 1)
    ensures PiecesFree([a] + rest, sep, n)
  {
    var r := [a] + rest;
    assert forall k :: 1 <= k < |r| ==> r[k] == rest[k - 1];
  }

  /** No piece of `r` holds `sep`, except perhaps the last when `r` has the
      full count `n` of pieces. */
  predicate PiecesFree(r: seq<string>, sep: string, n: nat)
  {
    && (forall i :: 0 <= i < |r| - 1 ==> !Contains(r[i], sep))
    && (|r| >= 1 && |r| < n ==> !Contains(r[|r| - 1], sep))
  }

  /** strings.Split for a non-empty `sep`: every occurrence separates. */
  function Split(s: string, sep: string): (r: seq<string>)
    requires sep != ""
    ensures |r| >= 1
    ensures Join(r, sep) == s
    ensures forall i :: 0 <= i < |r| ==> !Contains(r[i], sep)
    decreases |s|
  {
    var i := Index(s, sep);
    if i < 0 then [s]
    else
      FirstPieceFree(s, sep);
      var rest := Split(s[i + |sep|..], sep);
      JoinAround(s, sep, i, rest);
      assert forall k :: 1 <= k < 1 + |rest| ==> ([s[..i]] + rest)[k] == rest[k - 1];
      [s[..i]] + rest
  }

  /** The text before the first occurrence of `sep` does not contain `sep`. */
  lemma FirstPieceFree(s: string, sep: string)
    requires sep != "" && Index(s, sep) >= 0
    ensures !Contains(s[..Index(s, sep)], sep)
  {
    var i := Index(s, sep);
    var a := s[..i];
    forall j | OccursAt(a, sep, j) ensures false {
      assert a[j..j + |sep|] == s[j..j + |sep|];
      assert OccursAt(s, sep, j);
    }
  }

  /** A one-character separator occurs in `s` exactly when that character does. */
  lemma ContainsChar(s: string, c: char)
    ensures Contains(s, [c]) <==> c in s
  {
    if c in s {
      var j :| 0 <= j < |s| && s[j] == c;
      assert s[j..j + 1] == [c];
      assert OccursAt(s, [c], j);
    }
    if Contains(s, [c]) {
      var j := Index(s, [c]);
      assert s[j..j + 1] == [c];
      assert s[j] == c;
    }
  }

  /** Joining with a separator after the first part. */
  lemma JoinCons(a: string, rest: seq<string>, sep: string)
    requires |rest| >= 1
    ensures Join([a] + rest, sep) == a + sep + Join(rest, sep)
  {
    assert ([a] + rest)[1..] == rest;
  }

  /** Joining with a separator before the last part. */
  lemma {:induction false} JoinSnoc(parts: seq<string>, last: string, sep: string)
    requires |parts| >= 1
    ensures Join(parts + [last], sep) == Join(parts, sep) + sep + last
    decreases |parts|
  {
    if |parts| == 1 {
      assert parts + [last] == [parts[0]] + [last];
      JoinCons(parts[0], [last], sep);
    } else {
      assert parts + [last] == [parts[0]] + (parts[1..] + [last]);
      JoinCons(parts[0], parts[1..] + [last], sep);
      JoinSnoc(parts[1..], last, sep);
      JoinCons(parts[0], parts[1..], sep);
      assert [parts[0]] + parts[1..] == parts;
    }
  }

  /** When `a` does not contain `sep`, the first occurrence of `sep` in
      `a + sep + b` is the one right after `a`. This needs `sep` to have no
      border: here, one character or two different characters. */
  lemma IndexAfter(a: string, sep: string, b: string)
    requires 1 <= |sep| <= 2 && (|sep| == 2 ==> sep[0] != sep[1])
    requires !Contains(a, sep)
    ensures Index(a + sep + b, sep) == |a|
  {
    var s := a + sep + b;
    assert s[|a|..|a| + |sep|] == sep;
    assert OccursAt(s, sep, |a|);
    forall j | 0 <= j < |a| ensures !OccursAt(s, sep, j) {
      if j + |sep| <= |a| {
        assert s[j..j + |sep|] == a[j..j + |sep|];
        assert !OccursAt(a, sep, j);
      } else {
        assert s[j + 1] == sep[0];
      }
    }
  }

  /** SplitN into two pieces at the first occurrence of `sep`. */
  lemma SplitNAt(a: string, sep: string, b: string)
    requires 1 <= |sep| <= 2 && (|sep| == 2 ==> sep[0] != sep[1])
    requires !Contains(a, sep)
    ensures SplitN(a + sep + b, sep, 2) == [a, b]
  {
    var s := a + sep + b;
    IndexAfter(a, sep, b);
    assert s[..|a|] == a;
    assert s[|a| + |sep|..] == b;
  }

  /** Splitting on a one-character separator, at its first occurrence. */
  lemma SplitAt(a: string, c: char, b: string)
    requires c !in a
    ensures Split(a + [c] + b, [c]) == [a] + Split(b, [c])
  {
    var s := a + [c] + b;
    ContainsChar(a, c);
    IndexAfter(a, [c], b);
    assert s[..|a|] == a;
    assert s[|a| + 1..] == b;
  }

  /** Splitting a joined list on a one-character separator gives the list
      back, provided no part contains that character. */
  lemma {:induction false} SplitOfJoin(parts: seq<string>, c: char)
    requires |parts| >= 1
    requires forall i :: 0 <= i < |parts| ==> c !in parts[i]
    ensures Split(Join(parts, [c]), [c]) == parts
    decreases |parts|
  {
    if |parts| == 1 {
      ContainsChar(parts[0], c);
    } else {
      JoinCons(parts[0], parts[1..], [c]);
      assert [parts[0]] + parts[1..] == parts;
      SplitAt(parts[0], c, Join(parts[1..], [c]));
      SplitOfJoin(parts[1..], c);
    }
  }

  /** An occurrence in a suffix is an occurrence in the whole string. */
  lemma SuffixContains(s: string, sub: string, j: nat)
    requires j <= |s|
    ensures Contains(s[j..], sub) ==> Contains(s, sub)
  {
    if Contains(s[j..], sub) {
      var k := Index(s[j..], sub);
      assert s[j..][k..k + |sub|] == s[j + k..j + k + |sub|];
      assert OccursAt(s, sub, j + k);
    }
  }

  /** Removing leading characters of `cutset` from `c + s`, where `c` is in
      the cutset and `s` does not start with one, gives `s`. */
  lemma TrimLeftOne(c: char, s: string, cutset: string)
    requires c in cutset
    requires s == "" || s[0] !in cutset
    ensures TrimLeft([c] + s, cutset) == s
  {
    assert ([c] + s)[1..] == s;
  }

  /** A leading cutset character is removed with the rest of the run. */
  lemma TrimLeftCons(c: char, s: string, cutset: string)
    requires c in cutset
    ensures TrimLeft([c] + s, cutset) == TrimLeft(s, cutset)
  {
    assert ([c] + s)[1..] == s;
  }

  /** Trimming removes characters, so it never introduces one. */
  lemma {:induction false} TrimLeftKeepsAbsent(s: string, cutset: string, c: char)
    requires c !in s
    ensures c !in TrimLeft(s, cutset)
    decreases |s|
  {
    if |s| > 0 && s[0] in cutset {
      assert forall k :: 0 <= k < |s| - 1 ==> s[1..][k] == s[k + 1];
      TrimLeftKeepsAbsent(s[1..], cutset, c);
    }
  }

  /** The first piece of `Split(s, [c])`, when `c` occurs in `s`, is the text
      before the first `c`. */
  lemma SplitFirstPiece(s: string, c: char)
    requires c in s
    ensures c !in Split(s, [c])[0]
    ensures HasPrefix(s, Split(s, [c])[0] + [c])
  {
    var parts := Split(s, [c]);
    ContainsChar(s, c);
    ContainsChar(parts[0], c);
    if |parts| >= 2 {
      var p := parts[0];
      assert s == p + [c] + Join(parts[1..], [c]);
      assert s[..|p| + 1] == p + [c];
    }
  }

  /** Starting with a one-character prefix means starting with that character. */
  lemma HasPrefixChar(s: string, c: char)
    ensures HasPrefix(s, [c]) <==> |s| > 0 && s[0] == c
  {
    if |s| > 0 && s[0] == c {
      assert s[..1] == [c];
    }
  }
}
