/**
 * Shared vocabulary: optional values, results that carry the exception a
 * Java method would throw, and bytes.
 */
module Base {

  datatype Option<+T> = None | Some(value: T)

  /** The outcome of a Java call that may throw: `Failure` names the
      exception the call raises. */
  datatype Result<+T> = Success(value: T) | Failure(error: string)
  {
    predicate IsFailure() {
      Failure?
    }
  }

  /** A Java `byte` holds -128..127; only its unsigned pattern matters here,
      so it is modelled as 0..255. */
  newtype byte = b: int | 0 <= b < 256

  /** The bytes of an ASCII string. */
  function Ascii(s: string): (r: seq<byte>)
    requires forall i :: 0 <= i < |s| ==> s[i] as int < 128
    ensures |r| == |s|
    ensures forall i :: 0 <= i < |s| ==> r[i] as int == s[i] as int
  {
    if s == [] then [] else [s[0] as int as byte] + Ascii(s[1..])
  }

  /** No value occurs twice. */
  predicate Distinct<T(==)>(s: seq<T>)
    decreases |s|
  {
    |s| <= 1 || (s[0] !in s[1..] && Distinct(s[1..]))
  }

  /** Two places of a sequence without repetitions hold different
      values. */
  lemma {:induction false} DistinctAt<T>(s: seq<T>, i: int, j: int)
    requires Distinct(s) && 0 <= i < j < |s|
    ensures s[i] != s[j]
    decreases i
  {
    assert s[j] == s[1..][j - 1];
    if i > 0 {
      assert s[i] == s[1..][i - 1];
      DistinctAt(s[1..], i - 1, j - 1);
    }
  }

  /** A sequence whose places all hold different values has no
      repetitions. */
  lemma {:induction false} DistinctFromPlaces<T>(s: seq<T>)
    requires forall i, j :: 0 <= i < j < |s| ==> s[i] != s[j]
    ensures Distinct(s)
    decreases |s|
  {
    if |s| > 1 {
      var t := s[1..];
      forall i, j | 0 <= i < j < |t|
        ensures t[i] != t[j]
      {
        assert t[i] == s[i + 1] && t[j] == s[j + 1];
      }
      DistinctFromPlaces(t);
      forall j | 0 <= j < |t|
        ensures t[j] != s[0]
      {
        assert t[j] == s[j + 1];
      }
    }
  }

  /** A value not yet present can be appended without repeating one. */
  lemma {:induction false} DistinctAppend<T>(s: seq<T>, x: T)
    requires Distinct(s) && x !in s
    ensures Distinct(s + [x])
    decreases |s|
  {
    if s != [] {
      assert (s + [x])[1..] == s[1..] + [x];
      DistinctAppend(s[1..], x);
    }
  }
}
