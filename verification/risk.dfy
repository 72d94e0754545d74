/** Pre-trade risk rules: checks run on an order message before it reaches the engine. Each
    rule yields a violation or nothing. */
module Risk {
  import opened Types

  /** An incoming order request. */
  datatype PlaceOrderMessage = PlaceOrderMessage(
    player: string, clOrdId: string, symbol: string, side: Side, qty: int, kind: OrderType, price: Option<int>)

  datatype RiskViolationType = MaxOrderSize | RestrictedSymbol

  datatype RiskViolation = RiskViolation(kind: RiskViolationType, detail: string)

  /** The configured maximum order quantity when none is set. */
  const DefaultMaxOrderSize: int := 50000

  /** The configured restricted symbols when none are set. */
  const DefaultRestrictedSymbols: seq<string> := ["GME"]

  /** `sub` occurs in `s` starting at position `i`. */
  ghost predicate OccursAt(s: string, sub: string, i: int)
  {
    0 <= i <= |s| - |sub| && s[i..i + |sub|] == sub
  }

  /** `sub` occurs somewhere in `s`. */
  ghost predicate Contains(s: string, sub: string)
  {
    exists i :: OccursAt(s, sub, i)
  }

  function Digit(d: int): char
    requires 0 <= d < 10
  {
    "0123456789"[d]
  }

  /** Decimal digits of `n`, most significant first, with no leading zero. */
  function NatToString(n: nat): (s: string)
    ensures s != [] && forall i :: 0 <= i < |s| ==> '0' <= s[i] <= '9'
  {
    if n < 10 then [Digit(n)] else NatToString(n / 10) + [Digit(n % 10)]
  }

  /** `%d` rendering of an integer: a minus sign for negatives, then the digits. */
  function IntToString(i: int): string
  {
    if i < 0 then "-" + NatToString(-i) else NatToString(i)
  }

  /** The number a string of decimal digits denotes. */
  function DigitsValue(s: string): int
  {
    if s == [] then 0 else 10 * DigitsValue(s[..|s| - 1]) + (s[|s| - 1] as int - '0' as int)
  }

  /** The number read back from its decimal rendering. */
  function IntValue(s: string): int
  {
    if s != [] && s[0] == '-' then -DigitsValue(s[1..]) else DigitsValue(s)
  }

  lemma {:induction false} NatToStringRoundTrip(n: nat)
    ensures DigitsValue(NatToString(n)) == n
  {
    if n >= 10 {
      NatToStringRoundTrip(n / 10);
      var s := NatToString(n);
      assert s[..|s| - 1] == NatToString(n / 10);
    }
  }

  /** Reading back the rendering of any integer gives the integer. */
  lemma IntToStringRoundTrip(i: int)
    ensures IntValue(IntToString(i)) == i
  {
    var s := IntToString(i);
    if i < 0 {
      var n := NatToString(-i);
      NatToStringRoundTrip(-i);
      assert s == "-" + n;
      assert s[0] == '-' && s[1..] == n;
      assert IntValue(s) == -DigitsValue(n);
    } else {
      var n := NatToString(i);
      NatToStringRoundTrip(i);
      assert s == n && '0' <= n[0] <= '9';
      assert IntValue(s) == DigitsValue(n);
    }
  }

  /** An order larger than `maxOrderSize` is refused with a MAX_ORDER_SIZE violation. */
  function ValidateMaxOrderSize(maxOrderSize: int, m: PlaceOrderMessage): (r: Option<RiskViolation>)
    ensures r.Some? <==> m.qty > maxOrderSize
    ensures r.Some? ==> r.value.kind == MaxOrderSize
  {
    if m.qty > maxOrderSize then
      Some(RiskViolation(MaxOrderSize,
        "Order quantity " + IntToString(m.qty) + " exceeds maximum allowed " + IntToString(maxOrderSize)))
    else None
  }

  /** The size violation names both the order's quantity and the limit, each readable back. */
  lemma MaxOrderSizeDetail(maxOrderSize: int, m: PlaceOrderMessage)
    requires m.qty > maxOrderSize
    ensures var d := ValidateMaxOrderSize(maxOrderSize, m).value.detail;
      && Contains(d, IntToString(m.qty)) && Contains(d, IntToString(maxOrderSize))
      && IntValue(IntToString(m.qty)) == m.qty && IntValue(IntToString(maxOrderSize)) == maxOrderSize
  {
    var a := "Order quantity ";
    var q := IntToString(m.qty);
    var b := " exceeds maximum allowed ";
    var x := IntToString(maxOrderSize);
    var d := a + q + b + x;
    assert d == ValidateMaxOrderSize(maxOrderSize, m).value.detail;
    assert OccursAt(d, q, |a|);
    assert OccursAt(d, x, |a + q + b|);
    IntToStringRoundTrip(m.qty);
    IntToStringRoundTrip(maxOrderSize);
  }

  /** At the default limit an order of exactly 50000 passes and one of 50001 is refused. */
  lemma MaxOrderSizeBoundary(m: PlaceOrderMessage)
    ensures ValidateMaxOrderSize(DefaultMaxOrderSize, m.(qty := 50000)).None?
    ensures ValidateMaxOrderSize(DefaultMaxOrderSize, m.(qty := 50001)).Some?
  {
  }

  /** An order for a symbol on the restricted list is refused with a RESTRICTED_SYMBOL
      violation; the comparison is exact, so case matters. */
  function ValidateRestrictedSymbol(restrictedSymbols: seq<string>, m: PlaceOrderMessage): (r: Option<RiskViolation>)
    ensures r.Some? <==> exists i :: 0 <= i < |restrictedSymbols| && restrictedSymbols[i] == m.symbol
    ensures r.Some? ==> r.value.kind == RestrictedSymbol && Contains(r.value.detail, m.symbol)
  {
    if m.symbol in restrictedSymbols then
      var d := "Symbol " + m.symbol + " is restricted for trading";
      assert OccursAt(d, m.symbol, 7);
      Some(RiskViolation(RestrictedSymbol, d))
    else None
  }

  /** With the default list, "GME" is refused and "gme" is not. */
  lemma RestrictedSymbolCaseSensitive(m: PlaceOrderMessage)
    ensures ValidateRestrictedSymbol(DefaultRestrictedSymbols, m.(symbol := "GME")).Some?
    ensures ValidateRestrictedSymbol(DefaultRestrictedSymbols, m.(symbol := "gme")).None?
  {
    assert DefaultRestrictedSymbols[0] == "GME";
    assert "gme" != "GME" by { assert "gme"[0] != "GME"[0]; }
  }
}
