/**
 * Python's `str()` on the cluster identifiers the pipeline meets: integers and `None`.
 * Cluster names are stored under `str(cluster_id)`, so the model needs `str` to be
 * one-to-one; this is proved by giving it a left inverse.
 */
module Decimal {
  import opened Wrappers

  predicate IsDigit(c: char) { '0' <= c <= '9' }

  function DigitChar(d: nat): (c: char)
    requires d < 10
    ensures IsDigit(c)
  {
    ('0' as int + d) as char
  }

  function DigitValue(c: char): nat
  {
    if IsDigit(c) then c as int - '0' as int else 0
  }

  /** Decimal digits of `n`, most significant first, without leading zeros. */
  function NatText(n: nat): (s: string)
    ensures |s| > 0
    ensures forall i :: 0 <= i < |s| ==> IsDigit(s[i])
    decreases n
  {
    if n < 10 then [DigitChar(n)] else NatText(n / 10) + [DigitChar(n % 10)]
  }

  /** Value of a non-empty string of decimal digits. */
  function ParseNat(s: string): nat
    requires |s| > 0
    decreases |s|
  {
    if |s| == 1 then DigitValue(s[0])
    else 10 * ParseNat(s[..|s| - 1]) + DigitValue(s[|s| - 1])
  }

  lemma {:induction false} ParseNatText(n: nat)
    ensures ParseNat(NatText(n)) == n
  {
    if n >= 10 {
      var s := NatText(n);
      assert s[..|s| - 1] == NatText(n / 10);
      ParseNatText(n / 10);
    }
  }

  /** Python's `str(i)` for an integer. */
  function IntText(i: int): string
  {
    if i < 0 then "-" + NatText(-i) else NatText(i)
  }

  /** Python's `str(c)` for a cluster id read with `item.get("cluster")`, which may be `None`. */
  function IdText(c: Option<int>): string
  {
    match c
    case None => "None"
    case Some(i) => IntText(i)
  }

  /** Reads back what `IdText` wrote. */
  function ParseId(s: string): Option<int>
  {
    if s == "None" then None
    else if |s| > 1 && s[0] == '-' then Some(0 - ParseNat(s[1..]) as int)
    else if |s| > 0 then Some(ParseNat(s))
    else None
  }

  lemma ParseIdText(c: Option<int>)
    ensures ParseId(IdText(c)) == c
  {
    match c
    case None =>
    case Some(i) =>
      var s := IdText(c);
      assert s != "None" by {
        assert IsDigit(s[|s| - 1]);
      }
      if i < 0 {
        assert s[1..] == NatText(-i);
        ParseNatText(-i);
      } else {
        assert IsDigit(s[0]);
        ParseNatText(i);
      }
  }

  /** Distinct cluster ids never share a name key. */
  lemma IdTextInjective(a: Option<int>, b: Option<int>)
    ensures IdText(a) == IdText(b) ==> a == b
  {
    ParseIdText(a);
    ParseIdText(b);
  }
}
