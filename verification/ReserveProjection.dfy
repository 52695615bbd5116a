/** The reserves a pending pool call would leave behind, projected from the output it asks for. */
module ReserveProjection {
  import opened Bytes
  import opened Models
  import opened Rounding
  import opened V2Quote
  import opened Word256

  datatype MempoolTx = MempoolTx(data: seq<byte>, to: Option<Address>)

  /** The selector of swap(uint256,uint256,address,bytes). */
  const SWAP_SELECTOR: seq<byte> := [0x02, 0x2c, 0x0d, 0x9f]

  /** The input projected for an output: 1000 r_in o / (997 (r_out - o)), rounded down. */
  function ProjectedInput(output: nat, reserveIn: nat, reserveOut: nat): nat
    requires output < reserveOut
  {
    FloorDiv(1000 * reserveIn * output, 997 * (reserveOut - output))
  }

  lemma ProjectedInputBounds(output: nat, reserveIn: nat, reserveOut: nat)
    requires output < reserveOut
    ensures var x, left := ProjectedInput(output, reserveIn, reserveOut), reserveOut - output;
      997 * x * left <= 1000 * reserveIn * output < 997 * (x + 1) * left
  {
    var left := reserveOut - output;
    var x := ProjectedInput(output, reserveIn, reserveOut);
    FloorBounds(1000 * reserveIn * output, 997 * left);
    Assoc(x, 997, left);
    Assoc(x + 1, 997, left);
  }

  /** The projection is the tight inverse of the quote: the projected input buys at most the output
      asked for, one unit more buys at least it, and one unit more than pays for it. */
  lemma ProjectionInvertsQuote(output: nat, reserveIn: nat, reserveOut: nat)
    requires 0 < reserveIn && output < reserveOut
    ensures var x := ProjectedInput(output, reserveIn, reserveOut);
      && Quote(x, reserveIn, reserveOut) <= output <= Quote(x + 1, reserveIn, reserveOut)
      && (x + 1 + reserveIn) * (reserveOut - output) > reserveIn * reserveOut
  {
    var x, left := ProjectedInput(output, reserveIn, reserveOut), reserveOut - output;
    ProjectedInputBounds(output, reserveIn, reserveOut);
    hide ProjectedInput;
    BuysAtMost(x, output, reserveIn, reserveOut);
    BuysAtLeast(x + 1, output, reserveIn, reserveOut);
    Spread(x + 1, reserveIn, left);
    Spread(reserveOut, output, reserveIn);
    Assoc(997, x + 1, left);
    Assoc(1000, reserveIn, output);
    MulMono(0, reserveIn, output);
  }

  lemma BuysAtMost(x: nat, output: nat, reserveIn: nat, reserveOut: nat)
    requires 0 < reserveIn && output < reserveOut
    requires 997 * x * (reserveOut - output) <= 1000 * reserveIn * output
    ensures Quote(x, reserveIn, reserveOut) <= output
  {
    var d := 1000 * reserveIn + 997 * x;
    Spread(reserveOut, output, 997 * x);
    Spread(1000 * reserveIn, 997 * x, output);
    Spread(output, 1, d);
    FloorBelow(997 * x * reserveOut, d, output + 1);
  }

  lemma BuysAtLeast(x: nat, output: nat, reserveIn: nat, reserveOut: nat)
    requires 0 < reserveIn && output < reserveOut
    requires 1000 * reserveIn * output <= 997 * x * (reserveOut - output)
    ensures output <= Quote(x, reserveIn, reserveOut)
  {
    var d := 1000 * reserveIn + 997 * x;
    Spread(reserveOut, output, 997 * x);
    Spread(1000 * reserveIn, 997 * x, output);
    FloorAtLeast(997 * x * reserveOut, d, output);
  }

  /** No intermediate value of the projection leaves its word for reserves of 112 bits. */
  lemma ProjectionFits(output: u256, reserveIn: u256, reserveOut: u256)
    requires reserveIn < TWO_112 && output < reserveOut < TWO_112
    ensures WrapMul(WrapMul(reserveIn, output), 1000) == 1000 * reserveIn * output
    ensures WrapMul(reserveOut - output, 997) == 997 * (reserveOut - output) > 0
    ensures reserveIn + ProjectedInput(output, reserveIn, reserveOut) < TWO_256
  {
    hide FloorDiv;
    NumeratorFits(output, reserveIn);
    var n := 1000 * reserveIn * output;
    WordDivFits(n, 997 * (reserveOut - output));
    FloorBounds(n, 997 * (reserveOut - output));
  }

  lemma NumeratorFits(output: u256, reserveIn: u256)
    requires reserveIn < TWO_112 && output < TWO_112
    ensures 0 <= 1000 * reserveIn * output < 1000 * TWO_112 * TWO_112
    ensures WrapMul(WrapMul(reserveIn, output), 1000) == 1000 * reserveIn * output
  {
    MulMono(reserveIn, TWO_112, output);
    MulMono(0, reserveIn, output);
    Assoc(1000, reserveIn, output);
  }

  /** The two outputs a swap call asks for. */
  function Output0(data: seq<byte>): nat
    requires |data| >= 100
  {
    FromBytes(data[4..36])
  }

  function Output1(data: seq<byte>): nat
    requires |data| >= 100
  {
    FromBytes(data[36..68])
  }

  ghost predicate IsSwapCall(tx: MempoolTx, pools: map<Address, PoolState>) {
    && |tx.data| >= 100 && tx.data[0..4] == SWAP_SELECTOR
    && tx.to.Some? && tx.to.value in pools
  }

  /** The reserves left by a call, if it asks for less than a whole reserve. */
  function LeftBehind(state: PoolState, out0: nat, out1: nat): Option<(nat, nat)> {
    if out0 > 0 then
      if out0 < state.reserves0 then
        Some((state.reserves0 - out0, state.reserves1 + ProjectedInput(out0, state.reserves1, state.reserves0)))
      else None
    else if 0 < out1 < state.reserves1 then
      Some((state.reserves0 + ProjectedInput(out1, state.reserves0, state.reserves1), state.reserves1 - out1))
    else None
  }

  /** The projected reserves pay for what they give up: adding one unit to the side paid in, their
      product exceeds the product before. */
  lemma LeftBehindPaysItsWay(state: PoolState, out0: nat, out1: nat)
    requires state.reserves0 > 0 && state.reserves1 > 0 && LeftBehind(state, out0, out1).Some?
    ensures var (left0, left1) := LeftBehind(state, out0, out1).value;
      var r0, r1 := state.reserves0, state.reserves1;
      if out0 > 0 then
        left0 == r0 - out0 && r1 <= left1 && r0 * r1 < left0 * (left1 + 1)
      else
        left1 == r1 - out1 && r0 <= left0 && r0 * r1 < (left0 + 1) * left1
  {
    hide Quote, ProjectedInput;
    if out0 > 0 {
      ProjectionInvertsQuote(out0, state.reserves1, state.reserves0);
    } else {
      ProjectionInvertsQuote(out1, state.reserves0, state.reserves1);
    }
  }

  method ProjectReserveImpact(tx: MempoolTx, pools: map<Address, PoolState>)
    returns (impacts: map<Address, (u256, u256)>)
    requires forall a :: a in pools ==> pools[a].reserves0 < TWO_112 && pools[a].reserves1 < TWO_112
    ensures !IsSwapCall(tx, pools) ==> impacts == map[]
    ensures IsSwapCall(tx, pools) ==>
      var left := LeftBehind(pools[tx.to.value], Output0(tx.data), Output1(tx.data));
      if left.None? then impacts == map[]
      else impacts.Keys == {tx.to.value} && impacts[tx.to.value] == left.value
  {
    hide WrapMul, ProjectedInput, FromBytes;
    impacts := map[];
    if |tx.data| < 4 || tx.to.None? { return; }
    var target := tx.to.value;
    if tx.data[0..4] == SWAP_SELECTOR && |tx.data| >= 100 {
      if target in pools {
        var state := pools[target];
        FromBytesBelow(tx.data[4..36]);
        FromBytesBelow(tx.data[36..68]);
        WordSizes();
        var out0: u256 := FromBytes(tx.data[4..36]);
        var out1: u256 := FromBytes(tx.data[36..68]);
        var r0, r1 := state.reserves0, state.reserves1;
        if out0 > 0 {
          var new0 := SaturatingSub(r0, out0);
          if new0 != 0 {
            ProjectionFits(out0, r1, r0);
            ProjectedIs(out0, r1, r0);
            var in1 := WordDiv(WrapMul(WrapMul(r1, out0), 1000), WrapMul(new0, 997));
            impacts := impacts[target := (new0, WrapAdd(r1, in1))];
          }
        } else if out1 > 0 {
          var new1 := SaturatingSub(r1, out1);
          if new1 != 0 {
            ProjectionFits(out1, r0, r1);
            ProjectedIs(out1, r0, r1);
            var in0 := WordDiv(WrapMul(WrapMul(r0, out1), 1000), WrapMul(new1, 997));
            impacts := impacts[target := (WrapAdd(r0, in0), new1)];
          }
        }
      }
    }
  }

  lemma ProjectedIs(output: nat, reserveIn: nat, reserveOut: nat)
    requires output < reserveOut
    ensures ProjectedInput(output, reserveIn, reserveOut) == 1000 * reserveIn * output / (997 * (reserveOut - output))
  {
    hide FloorDiv;
    FloorBounds(1000 * reserveIn * output, 997 * (reserveOut - output));
  }

  /** A swap call: the selector, two output words, and whatever follows. */
  function SwapCall(out0: u256, out1: u256, tail: seq<byte>): seq<byte> {
    [0x02, 0x2c, 0x0d, 0x9f] + ToBytes(out0, 32) + ToBytes(out1, 32) + tail
  }

  /** A swap call of at least 100 bytes is recognised, and its two outputs are read in order. */
  lemma SwapCallIsRead(out0: u256, out1: u256, tail: seq<byte>, to: Address, pools: map<Address, PoolState>)
    requires |tail| >= 32
    ensures var data := SwapCall(out0, out1, tail);
      && |data| >= 100 && Output0(data) == out0 && Output1(data) == out1
      && (IsSwapCall(MempoolTx(data, Some(to)), pools) <==> to in pools)
      && !IsSwapCall(MempoolTx(data, None), pools)
  {
    hide ToBytes, FromBytes;
    var data := SwapCall(out0, out1, tail);
    assert data[4..36] == ToBytes(out0, 32) && data[36..68] == ToBytes(out1, 32) && data[0..4] == SWAP_SELECTOR;
    WordSizes();
    FromToBytes(out0, 32);
    FromToBytes(out1, 32);
  }

  /** The impact of a call in explicit arithmetic. The first output that is not zero counts; it leaves an
      impact exactly when it is less than the whole reserve, and then that reserve loses it and the other
      gains x with 997 x (r - o) <= 1000 r' o < 997 (x + 1) (r - o). */
  lemma ImpactIsExact(state: PoolState, out0: nat, out1: nat)
    ensures var left, r0, r1 := LeftBehind(state, out0, out1), state.reserves0, state.reserves1;
      && (left.None? <==> if out0 > 0 then r0 <= out0 else out1 == 0 || r1 <= out1)
      && (left.Some? && out0 > 0 ==>
            && left.value.0 == r0 - out0 && r1 <= left.value.1
            && 997 * (left.value.1 - r1) * (r0 - out0) <= 1000 * r1 * out0
               < 997 * (left.value.1 - r1 + 1) * (r0 - out0))
      && (left.Some? && out0 == 0 ==>
            && left.value.1 == r1 - out1 && r0 <= left.value.0
            && 997 * (left.value.0 - r0) * (r1 - out1) <= 1000 * r0 * out1
               < 997 * (left.value.0 - r0 + 1) * (r1 - out1))
  {
    hide ProjectedInput;
    if 0 < out0 < state.reserves0 { ProjectedInputBounds(out0, state.reserves1, state.reserves0); }
    if 0 < out1 < state.reserves1 { ProjectedInputBounds(out1, state.reserves0, state.reserves1); }
  }
}
