/**
 * Node identifiers. The store names each new node `${kind}-${counter}`,
 * where the counter is rendered in decimal by a JavaScript template literal.
 * `Serial` reads the counter back out of such an id; the round trip
 * `Serial(NodeId(kind, n)) == Some(n)` is what makes ids built from
 * different counter values differ, whatever the kinds.
 */
module NodeIds {
  import opened Wrappers

  predicate IsDigit(c: char) {
    '0' <= c <= '9'
  }

  predicate AllDigits(s: string) {
    forall i :: 0 <= i < |s| ==> IsDigit(s[i])
  }

  function DigitChar(d: nat): (c: char)
    requires d < 10
    ensures IsDigit(c) && c as int - '0' as int == d
  {
    ('0' as int + d) as char
  }

  /** The decimal rendering of `n`: non-empty, digits only. */
  function Decimal(n: nat): (s: string)
    ensures |s| > 0 && AllDigits(s)
  {
    if n < 10 then [DigitChar(n)] else Decimal(n / 10) + [DigitChar(n % 10)]
  }

  /** A positive number is rendered without a leading zero. */
  lemma {:induction false} DecimalNoLeadingZero(n: nat)
    requires n > 0
    ensures Decimal(n)[0] != '0'
  {
    if n >= 10 {
      DecimalNoLeadingZero(n / 10);
      assert Decimal(n)[0] == Decimal(n / 10)[0];
    }
  }

  /** The number a string of decimal digits denotes. */
  function DigitsValue(s: string): nat
    requires AllDigits(s)
  {
    if s == [] then 0 else DigitsValue(s[..|s| - 1]) * 10 + (s[|s| - 1] as int - '0' as int)
  }

  lemma {:induction false} DigitsValueOfDecimal(n: nat)
    ensures DigitsValue(Decimal(n)) == n
  {
    if n >= 10 {
      var s := Decimal(n);
      assert s[..|s| - 1] == Decimal(n / 10);
      DigitsValueOfDecimal(n / 10);
    }
  }

  /** The length of the longest run of digits that ends `s`. */
  function TrailingDigits(s: string): (k: nat)
    ensures k <= |s| && AllDigits(s[|s| - k..])
  {
    if s != [] && IsDigit(s[|s| - 1]) then
      var k' := TrailingDigits(s[..|s| - 1]);
      assert s[|s| - (k' + 1)..] == s[..|s| - 1][|s| - 1 - k'..] + [s[|s| - 1]];
      k' + 1
    else
      0
  }

  lemma {:induction false} TrailingDigitsAfterSeparator(p: string, d: string)
    requires p == [] || !IsDigit(p[|p| - 1])
    requires AllDigits(d)
    ensures TrailingDigits(p + d) == |d|
  {
    if d == [] {
      assert p + d == p;
    } else {
      var d' := d[..|d| - 1];
      assert (p + d)[..|p + d| - 1] == p + d';
      TrailingDigitsAfterSeparator(p, d');
    }
  }

  /** The counter value an id of the form `<kind>-<decimal>` was built from. */
  function Serial(id: string): Option<nat> {
    var k := TrailingDigits(id);
    if 0 < k < |id| && id[|id| - k - 1] == '-' then Some(DigitsValue(id[|id| - k..])) else None
  }

  /** The id `addNode` gives a node of kind `kind` when the counter reads `n`. */
  function NodeId(kind: string, n: nat): string {
    kind + "-" + Decimal(n)
  }

  lemma SerialOfNodeId(kind: string, n: nat)
    ensures Serial(NodeId(kind, n)) == Some(n)
  {
    var d := Decimal(n);
    var s := NodeId(kind, n);
    assert s == (kind + "-") + d;
    TrailingDigitsAfterSeparator(kind + "-", d);
    assert s[|s| - |d|..] == d;
    DigitsValueOfDecimal(n);
  }

  /** Ids issued at different counter values never coincide, even across kinds. */
  lemma NodeIdsDistinct(kind1: string, n1: nat, kind2: string, n2: nat)
    requires n1 != n2
    ensures NodeId(kind1, n1) != NodeId(kind2, n2)
  {
    SerialOfNodeId(kind1, n1);
    SerialOfNodeId(kind2, n2);
  }
}
