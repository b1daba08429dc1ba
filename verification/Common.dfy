/** Shared vocabulary: bytes, optional results and byte-range updates. */
module Common {
  newtype byte = x: int | 0 <= x < 256

  datatype Option<+T> = None | Some(value: T) {
    function GetOr(default: T): T {
      if Some? then value else default
    }
  }

  /** `s` with the bytes of `patch` written at `at`; everything else is kept. */
  function Splice<T>(s: seq<T>, at: nat, patch: seq<T>): (r: seq<T>)
    requires at + |patch| <= |s|
    ensures |r| == |s|
    ensures r[at..at + |patch|] == patch
    ensures forall i :: 0 <= i < |s| && !(at <= i < at + |patch|) ==> r[i] == s[i]
  {
    s[..at] + patch + s[at + |patch|..]
  }

  /** Two ranges of `s` and `t` agree as slices when they agree pointwise. */
  lemma SliceEqual<T>(s: seq<T>, t: seq<T>, lo: nat, hi: nat)
    requires lo <= hi <= |s| && hi <= |t|
    requires forall i :: lo <= i < hi ==> s[i] == t[i]
    ensures s[lo..hi] == t[lo..hi]
  {}

  /** A slice of a slice is a slice. */
  lemma SubSlice<T>(s: seq<T>, lo: nat, hi: nat, a: nat, b: nat)
    requires lo <= hi <= |s| && a <= b <= hi - lo
    ensures s[lo..hi][a..b] == s[lo + a..lo + b]
  {
    var inner := s[lo..hi];
    assert forall i :: 0 <= i < hi - lo ==> inner[i] == s[lo + i];
    var left, right := inner[a..b], s[lo + a..lo + b];
    forall i | 0 <= i < b - a ensures left[i] == right[i] {
      assert left[i] == inner[a + i];
    }
  }

  /** memcpy: writes `patch` at `at` of a buffer. */
  method CopyInto(buffer: array<byte>, at: nat, patch: seq<byte>)
    requires at + |patch| <= buffer.Length
    modifies buffer
    ensures buffer[..] == Splice(old(buffer[..]), at, patch)
  {
    forall i | 0 <= i < |patch| {
      buffer[at + i] := patch[i];
    }
    assert buffer[..] == old(buffer[..at]) + patch + old(buffer[at + |patch|..]);
  }

  /** f(s[0]) + f(s[1]) + ... */
  function Sum<T>(s: seq<T>, f: T -> nat): nat {
    if s == [] then 0 else f(s[0]) + Sum(s[1..], f)
  }

  lemma {:induction false} SumUpdate<T>(s: seq<T>, k: nat, x: T, f: T -> nat)
    requires k < |s|
    ensures Sum(s[k := x], f) + f(s[k]) == Sum(s, f) + f(x)
  {
    if k == 0 {
      assert s[k := x][1..] == s[1..];
    } else {
      SumUpdate(s[1..], k - 1, x, f);
      assert s[k := x][1..] == s[1..][k - 1 := x];
    }
  }

  lemma {:induction false} SumMember<T>(s: seq<T>, k: nat, f: T -> nat)
    requires k < |s|
    ensures f(s[k]) <= Sum(s, f)
  {
    if k > 0 {
      SumMember(s[1..], k - 1, f);
    }
  }

  lemma {:induction false} SumZero<T>(s: seq<T>, f: T -> nat)
    ensures Sum(s, f) == 0 <==> forall k :: 0 <= k < |s| ==> f(s[k]) == 0
  {
    if s != [] {
      SumZero(s[1..], f);
      assert forall k :: 1 <= k < |s| ==> s[k] == s[1..][k - 1];
      if Sum(s, f) == 0 {
        forall k | 0 <= k < |s| ensures f(s[k]) == 0 {
          SumMember(s, k, f);
        }
      }
    }
  }
}
