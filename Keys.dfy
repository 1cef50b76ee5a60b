/**
 Route keys: the string `"<departure>-<arrival>"` that names one direction of
 travel between two airports, how it is split back into its two codes, and
 how the key of the opposite direction is formed.
 */
module Keys {

  /** The character that joins the two airport codes of a route key. */
  const Separator: char := '-'

  /** An airport code that can be embedded in a route key: it has no separator. */
  predicate IsCode(c: string) {
    Separator !in c
  }

  /** A well-formed route key holds exactly one separator, so it splits into two codes. */
  predicate IsRouteKey(k: string) {
    |SplitPath(k)| == 2
  }

  /** The route key of a flight from `dep` to `arr`. */
  function MakeKey(dep: string, arr: string): string {
    dep + [Separator] + arr
  }

  /** The pieces joined back together, `sep` between consecutive pieces. */
  function Join(parts: seq<string>, sep: char): string
    requires parts != []
  {
    if |parts| == 1 then parts[0] else parts[0] + [sep] + Join(parts[1..], sep)
  }

  /**
   String splitting on a one-character separator, as a script engine's
   `split` does it: one piece more than there are separators, empty pieces
   kept.
   */
  function Split(s: string, sep: char): (parts: seq<string>)
    ensures |parts| >= 1
    decreases |s|
  {
    if s == [] then [[]]
    else
      var rest := Split(s[1..], sep);
      if s[0] == sep then [[]] + rest else [[s[0]] + rest[0]] + rest[1..]
  }

  /** Splitting a string that starts with a character `c`, in terms of splitting the rest. */
  lemma SplitCons(c: char, s: string, sep: char)
    ensures Split([c] + s, sep) ==
      if c == sep then [[]] + Split(s, sep) else [[c] + Split(s, sep)[0]] + Split(s, sep)[1..]
  {
  }

  /** No piece of a split holds the separator. */
  lemma {:induction false} SplitPiecesFree(s: string, sep: char)
    ensures forall i :: 0 <= i < |Split(s, sep)| ==> sep !in Split(s, sep)[i]
    decreases |s|
  {
    if s != [] {
      assert s == [s[0]] + s[1..];
      SplitCons(s[0], s[1..], sep);
      SplitPiecesFree(s[1..], sep);
    }
  }

  /** Joining the pieces of a split gives the string back. */
  lemma {:induction false} SplitJoin(s: string, sep: char)
    ensures Join(Split(s, sep), sep) == s
    decreases |s|
  {
    if s != [] {
      assert s == [s[0]] + s[1..];
      SplitCons(s[0], s[1..], sep);
      SplitJoin(s[1..], sep);
      var rest := Split(s[1..], sep);
      if s[0] != sep {
        var parts := [[s[0]] + rest[0]] + rest[1..];
        assert parts[1..] == rest[1..];
        if |rest| > 1 {
          assert Join(rest, sep) == rest[0] + [sep] + Join(rest[1..], sep);
        }
      } else {
        assert ([[]] + rest)[1..] == rest;
      }
    }
  }

  /** A string holding the separator splits into at least two pieces. */
  lemma {:induction false} SplitAtSeparator(s: string, sep: char)
    requires sep in s
    ensures |Split(s, sep)| >= 2
    decreases |s|
  {
    assert s == [s[0]] + s[1..];
    SplitCons(s[0], s[1..], sep);
    if s[0] != sep {
      SplitAtSeparator(s[1..], sep);
    }
  }

  /** The two codes of a route key, as `splitPath` yields them. */
  function SplitPath(k: string): (parts: seq<string>)
    ensures |parts| >= 1
  {
    Split(k, Separator)
  }

  /**
   The key of the opposite direction: the second piece, the separator, then
   the first piece. A key with more than one separator keeps only its first
   two pieces, as the destructuring assignment of the source does.
   */
  function ReversePath(k: string): (r: string)
    requires Separator in k
    ensures Separator in r
  {
    SplitAtSeparator(k, Separator);
    var parts := SplitPath(k);
    MakeKey(parts[1], parts[0])
  }

  /** A piece without the separator splits into itself alone. */
  lemma {:induction false} SplitSingle(s: string)
    requires IsCode(s)
    ensures SplitPath(s) == [s]
    decreases |s|
  {
    if s != [] {
      assert s == [s[0]] + s[1..];
      SplitCons(s[0], s[1..], Separator);
      SplitSingle(s[1..]);
    }
  }

  /** Splitting the key of `dep` and `arr` gives back `[dep, arr]` (map.js:60, map.js:170-172). */
  lemma {:induction false} SplitMakeKey(dep: string, arr: string)
    requires IsCode(dep) && IsCode(arr)
    ensures SplitPath(MakeKey(dep, arr)) == [dep, arr]
  {
    if dep == [] {
      assert MakeKey(dep, arr) == [Separator] + arr;
      SplitCons(Separator, arr, Separator);
      SplitSingle(arr);
    } else {
      var tail := MakeKey(dep[1..], arr);
      assert MakeKey(dep, arr) == [dep[0]] + tail;
      SplitCons(dep[0], tail, Separator);
      SplitMakeKey(dep[1..], arr);
      assert dep == [dep[0]] + dep[1..];
    }
  }

  /** The key of two codes is well formed. */
  lemma MakeKeyIsRouteKey(dep: string, arr: string)
    requires IsCode(dep) && IsCode(arr)
    ensures IsRouteKey(MakeKey(dep, arr))
  {
    SplitMakeKey(dep, arr);
  }

  /** Reversing the key of `dep` and `arr` gives the key of `arr` and `dep`. */
  lemma ReverseMakeKey(dep: string, arr: string)
    requires IsCode(dep) && IsCode(arr)
    ensures Separator in MakeKey(dep, arr)
    ensures ReversePath(MakeKey(dep, arr)) == MakeKey(arr, dep)
  {
    assert MakeKey(dep, arr)[|dep|] == Separator;
    SplitMakeKey(dep, arr);
  }

  /** A well-formed key is the key of its two pieces, and neither piece holds the separator. */
  lemma RouteKeyParts(k: string)
    requires IsRouteKey(k)
    ensures |SplitPath(k)| == 2
    ensures IsCode(SplitPath(k)[0]) && IsCode(SplitPath(k)[1])
    ensures k == MakeKey(SplitPath(k)[0], SplitPath(k)[1])
  {
    var parts := SplitPath(k);
    SplitJoin(k, Separator);
    SplitPiecesFree(k, Separator);
    assert Join(parts, Separator) == parts[0] + [Separator] + Join(parts[1..], Separator);
  }

  /** Reversing a well-formed key twice gives the key back (map.js:165-168). */
  lemma ReversePathInvolutive(k: string)
    requires IsRouteKey(k)
    ensures Separator in k
    ensures IsRouteKey(ReversePath(k))
    ensures ReversePath(ReversePath(k)) == k
  {
    RouteKeyParts(k);
    assert k[|SplitPath(k)[0]|] == Separator;
    var parts := SplitPath(k);
    ReverseMakeKey(parts[0], parts[1]);
    ReverseMakeKey(parts[1], parts[0]);
    MakeKeyIsRouteKey(parts[1], parts[0]);
  }
}
