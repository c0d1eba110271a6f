/**
  Identifiers issued by the backup engine.

  Content ids (64 characters) and snapshot ids (8 characters) are drawn at
  random from the 62 ASCII letters and digits and redrawn until the draw is
  not already registered. The source loop has no bound, so the model states
  the draw as a nondeterministic choice of a fresh, well-formed id, and this
  module proves that such an id exists whenever the registry is smaller than
  the id space (otherwise the source would loop forever).
 */
module Ids {

  /** Length of a content (blob) id. */
  const ContentIdLength: nat := 64
  /** Length of a snapshot id. */
  const SnapshotIdLength: nat := 8
  /** Size of the id alphabet: a-z, A-Z, 0-9. */
  const Radix: nat := 62

  predicate IdChar(c: char) {
    ('a' <= c <= 'z') || ('A' <= c <= 'Z') || ('0' <= c <= '9')
  }

  /** A well-formed id of length k over the id alphabet. */
  predicate ValidId(id: string, k: nat) {
    |id| == k && forall i :: 0 <= i < |id| ==> IdChar(id[i])
  }

  function Pow(b: nat, e: nat): (r: nat)
    ensures b > 0 ==> r > 0
  {
    if e == 0 then 1 else b * Pow(b, e - 1)
  }

  /** The number of distinct well-formed ids of length k. */
  function IdSpace(k: nat): nat {
    Pow(Radix, k)
  }

  /** The d-th character of the alphabet: lower case, upper case, then digits. */
  function Digit(d: nat): (c: char)
    requires d < Radix
    ensures IdChar(c)
  {
    if d < 26 then ('a' as int + d) as char
    else if d < 52 then ('A' as int + (d - 26)) as char
    else ('0' as int + (d - 52)) as char
  }

  lemma DigitInjective(d: nat, e: nat)
    requires d < Radix && e < Radix
    requires Digit(d) == Digit(e)
    ensures d == e
  {
  }

  /** The k-digit base-62 spelling of n, most significant digit first. */
  function Encode(n: nat, k: nat): (r: string)
    requires n < IdSpace(k)
    ensures ValidId(r, k)
  {
    if k == 0 then ""
    else
      assert n / Radix < IdSpace(k - 1);
      Encode(n / Radix, k - 1) + [Digit(n % Radix)]
  }

  lemma {:induction false} EncodeInjective(n: nat, m: nat, k: nat)
    requires n < IdSpace(k) && m < IdSpace(k)
    requires Encode(n, k) == Encode(m, k)
    ensures n == m
  {
    if k > 0 {
      var en, em := Encode(n, k), Encode(m, k);
      assert n / Radix < IdSpace(k - 1) && m / Radix < IdSpace(k - 1);
      assert en[..k - 1] == Encode(n / Radix, k - 1);
      assert em[..k - 1] == Encode(m / Radix, k - 1);
      assert en[k - 1] == Digit(n % Radix) && em[k - 1] == Digit(m % Radix);
      DigitInjective(n % Radix, m % Radix);
      EncodeInjective(n / Radix, m / Radix, k - 1);
    }
  }

  /** The ids spelling 0 .. count-1. */
  function Spelled(count: nat, k: nat): set<string>
    requires count <= IdSpace(k)
  {
    set n: nat | n < count :: Encode(n, k)
  }

  lemma {:induction false} SpelledSize(count: nat, k: nat)
    requires count <= IdSpace(k)
    ensures |Spelled(count, k)| == count
  {
    if count > 0 {
      var last := count - 1;
      SpelledSize(last, k);
      assert Spelled(count, k) == Spelled(last, k) + {Encode(last, k)};
      if Encode(last, k) in Spelled(last, k) {
        var n: nat :| n < last && Encode(n, k) == Encode(last, k);
        EncodeInjective(n, last, k);
      }
    }
  }

  lemma {:induction false} SeqSetSize<T>(s: seq<T>)
    ensures |set x | x in s| <= |s|
  {
    if s != [] {
      SeqSetSize(s[1..]);
      assert (set x | x in s) == (set x | x in s[1..]) + {s[0]};
    }
  }

  lemma SubsetSize<T>(a: set<T>, b: set<T>)
    requires a <= b
    ensures |a| <= |b|
  {
    assert b == a + (b - a);
  }

  /**
    There is a well-formed id of length k outside any registry holding fewer
    ids than the id space: the loop that redraws on collision can stop.
   */
  lemma FreshIdExists(used: seq<string>, k: nat)
    requires |used| < IdSpace(k)
    ensures exists id :: ValidId(id, k) && id !in used
  {
    var candidates := Spelled(|used| + 1, k);
    var taken := set x | x in used;
    SpelledSize(|used| + 1, k);
    SeqSetSize(used);
    if candidates <= taken {
      SubsetSize(candidates, taken);
      assert false;
    }
    var id :| id in candidates && id !in taken;
    var n: nat :| n < |used| + 1 && Encode(n, k) == id;
    assert ValidId(id, k);
  }
}
