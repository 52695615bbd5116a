/** Packed path payload: the encoder of the bot and the decoder of the contract. */
module PathCodec {
  import opened Bytes
  import opened Models
  import opened Rounding
  import opened Word256

  datatype Loan = Loan(token: Address, amount: u256)

  datatype Payload = Payload(minProfit: u256, lender: Lender, loans: seq<Loan>, hops: seq<Hop>)

  // ----- Layout -------------------------------------------------------------------------------------

  function Flag(b: bool): byte { if b then 1 else 0 }

  function LoanBytes(loan: Loan): (s: seq<byte>)
    ensures |s| == 52
  {
    ToBytes(loan.token, 20) + ToBytes(loan.amount, 32)
  }

  function HopBytes(hop: Hop): (s: seq<byte>)
    ensures |s| == 43
  {
    ToBytes(hop.pool, 20) + ToBytes(hop.tokenOut, 20)
    + [hop.dexType.Discriminant(), Flag(hop.zeroForOne), Flag(hop.isStable)]
  }

  function AllLoans(loans: seq<Loan>): (s: seq<byte>)
    ensures |s| == 52 * |loans|
  {
    if loans == [] then [] else AllLoans(loans[..|loans| - 1]) + LoanBytes(loans[|loans| - 1])
  }

  function AllHops(hops: seq<Hop>): (s: seq<byte>)
    ensures |s| == 43 * |hops|
  {
    if hops == [] then [] else AllHops(hops[..|hops| - 1]) + HopBytes(hops[|hops| - 1])
  }

  /** The payload: minimum profit, lender, loan count, loans, hop count, hops. Counts keep their low byte. */
  function Encoded(p: Payload): seq<byte> {
    ToBytes(p.minProfit, 32) + [p.lender.Id(), |p.loans| % 256] + AllLoans(p.loans)
    + [|p.hops| % 256] + AllHops(p.hops)
  }

  method EncodeGhostMulti(hops: seq<Hop>, lender: Lender, loans: seq<Loan>,
      minProfit: u256) returns (encoded: seq<byte>)
    ensures encoded == Encoded(Payload(minProfit, lender, loans, hops))
  {
    hide ToBytes, AllLoans, AllHops, LoanBytes, HopBytes;
    NothingYet();
    encoded := ToBytes(minProfit, 32);
    encoded := encoded + [lender.Id()];
    encoded := encoded + [|loans| % 256];
    ghost var header := encoded;
    for i := 0 to |loans|
      invariant encoded == header + AllLoans(loans[..i])
    {
      OneMoreLoan(header, loans, i);
      encoded := encoded + ToBytes(loans[i].token, 20);
      encoded := encoded + ToBytes(loans[i].amount, 32);
    }
    assert loans[..|loans|] == loans;
    encoded := encoded + [|hops| % 256];
    ghost var prefix := encoded;
    for i := 0 to |hops|
      invariant encoded == prefix + AllHops(hops[..i])
    {
      OneMoreHop(prefix, hops, i);
      encoded := encoded + ToBytes(hops[i].pool, 20);
      encoded := encoded + ToBytes(hops[i].tokenOut, 20);
      encoded := encoded + [hops[i].dexType.Discriminant()];
      encoded := encoded + [Flag(hops[i].zeroForOne)];
      encoded := encoded + [Flag(hops[i].isStable)];
    }
    assert hops[..|hops|] == hops;
  }

  lemma NothingYet()
    ensures AllLoans([]) == [] && AllHops([]) == []
  {
  }

  lemma OneMoreLoan(header: seq<byte>, loans: seq<Loan>, i: nat)
    requires i < |loans|
    ensures header + AllLoans(loans[..i + 1])
      == header + AllLoans(loans[..i]) + ToBytes(loans[i].token, 20) + ToBytes(loans[i].amount, 32)
  {
    hide ToBytes;
    assert loans[..i + 1][..i] == loans[..i];
  }

  lemma OneMoreHop(prefix: seq<byte>, hops: seq<Hop>, i: nat)
    requires i < |hops|
    ensures prefix + AllHops(hops[..i + 1])
      == prefix + AllHops(hops[..i]) + ToBytes(hops[i].pool, 20) + ToBytes(hops[i].tokenOut, 20)
         + [hops[i].dexType.Discriminant()] + [Flag(hops[i].zeroForOne)] + [Flag(hops[i].isStable)]
  {
    hide ToBytes;
    assert hops[..i + 1][..i] == hops[..i];
  }

  // ----- Reading words ------------------------------------------------------------------------------

  /** Thirty-two bytes from a position, zero beyond the end. */
  function Window(data: seq<byte>, ptr: nat): (s: seq<byte>)
    ensures |s| == 32
  {
    seq(32, i requires 0 <= i => if ptr + i < |data| then data[ptr + i] else 0)
  }

  function Load(data: seq<byte>, ptr: nat): nat { FromBytes(Window(data, ptr)) }

  function ShiftRight96(word: nat): nat { FloorDiv(word, 0x1_0000_0000_0000_0000_0000_0000) }

  /** The i-th byte of a word, the most significant being byte zero. */
  function ByteAt(i: nat, word: nat): byte
    requires i < 32
  {
    FloorDiv(word, Pow256(31 - i)) % 256
  }

  lemma LoadByte(data: seq<byte>, ptr: nat, i: nat)
    requires i < 32 && ptr + i < |data|
    ensures ByteAt(i, Load(data, ptr)) == data[ptr + i]
  {
    hide FloorDiv;
    ByteOf(Window(data, ptr), i);
    FloorBounds(Load(data, ptr), Pow256(31 - i));
  }

  lemma {:induction false} LoadAddress(data: seq<byte>, ptr: nat, address: Address)
    requires ptr + 20 <= |data| && data[ptr..ptr + 20] == ToBytes(address, 20)
    ensures ShiftRight96(Load(data, ptr)) == address
  {
    hide FloorDiv;
    WordSizes();
    HighBytes(Window(data, ptr), 20);
    FloorBounds(Load(data, ptr), Pow256(12));
    assert Window(data, ptr)[..20] == data[ptr..ptr + 20];
    FromToBytes(address, 20);
  }

  lemma {:induction false} LoadWord(data: seq<byte>, ptr: nat, word: u256)
    requires ptr + 32 <= |data| && data[ptr..ptr + 32] == ToBytes(word, 32)
    ensures Load(data, ptr) == word
  {
    WordSizes();
    assert Window(data, ptr) == data[ptr..ptr + 32];
    FromToBytes(word, 32);
  }

  // ----- The contract's readers ---------------------------------------------------------------------

  datatype DecodedHop = DecodedHop(pool: nat, tokenOut: nat, dexType: byte, zeroForOne: byte, isStable: byte)

  function ReadMinProfit(data: seq<byte>): nat { Load(data, 0) }

  function ReadLenderId(data: seq<byte>): byte { ByteAt(0, Load(data, 32)) }

  function ReadLoansLen(data: seq<byte>): byte { ByteAt(1, Load(data, 32)) }

  function ReadToken(data: seq<byte>, i: nat): nat { ShiftRight96(Load(data, 34 + 52 * i)) }

  function ReadAmount(data: seq<byte>, i: nat): nat { Load(data, 54 + 52 * i) }

  function HopsPtr(data: seq<byte>): nat { 34 + ReadLoansLen(data) * 52 }

  function ReadHopsLen(data: seq<byte>): byte { ByteAt(0, Load(data, HopsPtr(data))) }

  function ReadHop(data: seq<byte>, ptr: nat): DecodedHop {
    var word := Load(data, ptr + 40);
    DecodedHop(ShiftRight96(Load(data, ptr)), ShiftRight96(Load(data, ptr + 20)),
      ByteAt(0, word), ByteAt(1, word), ByteAt(2, word))
  }

  function DecodedTokens(data: seq<byte>): (s: seq<nat>) {
    seq(ReadLoansLen(data), i requires 0 <= i => ReadToken(data, i))
  }

  function DecodedAmounts(data: seq<byte>): seq<nat> {
    seq(ReadLoansLen(data), i requires 0 <= i => ReadAmount(data, i))
  }

  function DecodedHops(data: seq<byte>): seq<DecodedHop> {
    seq(ReadHopsLen(data), i requires 0 <= i => ReadHop(data, HopsPtr(data) + 1 + 43 * i))
  }

  /** The lender and loan readers: two passes over the loans, tokens first and then amounts, each
      writing one word per loan. */
  method ReadLoans(data: seq<byte>) returns (lenderId: byte, tokens: seq<nat>, amounts: seq<nat>)
    ensures lenderId == ReadLenderId(data)
    ensures tokens == DecodedTokens(data) && amounts == DecodedAmounts(data)
  {
    hide Load, ByteAt, ShiftRight96;
    var word := Load(data, 32);
    lenderId := ByteAt(0, word);
    var loansLen: nat := ByteAt(1, word);
    var tokenWords := new nat[loansLen];
    var dataPtr: nat := 34;
    for i := 0 to loansLen
      invariant dataPtr == 34 + 52 * i
      invariant forall j :: 0 <= j < i ==> tokenWords[j] == ReadToken(data, j)
    {
      tokenWords[i] := ShiftRight96(Load(data, dataPtr));
      dataPtr := dataPtr + 52;
    }
    tokens := tokenWords[..];
    var amountWords := new nat[loansLen];
    dataPtr := 54;
    for i := 0 to loansLen
      invariant dataPtr == 54 + 52 * i
      invariant forall j :: 0 <= j < i ==> amountWords[j] == ReadAmount(data, j)
    {
      amountWords[i] := Load(data, dataPtr);
      dataPtr := dataPtr + 52;
    }
    amounts := amountWords[..];
  }

  /** The hop reader: one pass with a moving offset. */
  method ReadHops(data: seq<byte>) returns (hops: seq<DecodedHop>)
    ensures hops == DecodedHops(data)
  {
    hide Load, ByteAt, ReadHop;
    var loansLen: nat := ByteAt(1, Load(data, 32));
    var hopsPtr: nat := 34 + loansLen * 52;
    var hopsLen := ByteAt(0, Load(data, hopsPtr));
    var currentHop := hopsPtr + 1;
    hops := [];
    for i := 0 to hopsLen
      invariant currentHop == hopsPtr + 1 + 43 * i
      invariant |hops| == i && forall j :: 0 <= j < i ==> hops[j] == DecodedHops(data)[j]
    {
      hops := hops + [ReadHop(data, currentHop)];
      currentHop := currentHop + 43;
    }
  }

  // ----- Decoding what was encoded ------------------------------------------------------------------

  function HopFields(hop: Hop): DecodedHop {
    DecodedHop(hop.pool, hop.tokenOut, hop.dexType.Discriminant(), Flag(hop.zeroForOne), Flag(hop.isStable))
  }

  /** Everything the contract reads agrees with the payload. */
  ghost predicate DecodesTo(data: seq<byte>, p: Payload) {
    && ReadMinProfit(data) == p.minProfit
    && ReadLenderId(data) == p.lender.Id()
    && |DecodedTokens(data)| == |DecodedAmounts(data)| == |p.loans| && |DecodedHops(data)| == |p.hops|
    && (forall i :: 0 <= i < |p.loans| ==> DecodedTokens(data)[i] == p.loans[i].token)
    && (forall i :: 0 <= i < |p.loans| ==> DecodedAmounts(data)[i] == p.loans[i].amount)
    && (forall i :: 0 <= i < |p.hops| ==> DecodedHops(data)[i] == HopFields(p.hops[i]))
  }

  lemma {:induction false} LoanAt(loans: seq<Loan>, i: nat)
    requires i < |loans|
    ensures AllLoans(loans)[52 * i..52 * i + 52] == LoanBytes(loans[i])
    decreases |loans|
  {
    var init := loans[..|loans| - 1];
    if i < |loans| - 1 {
      LoanAt(init, i);
      assert AllLoans(loans)[52 * i..52 * i + 52] == AllLoans(init)[52 * i..52 * i + 52];
    }
  }

  lemma {:induction false} HopAt(hops: seq<Hop>, i: nat)
    requires i < |hops|
    ensures AllHops(hops)[43 * i..43 * i + 43] == HopBytes(hops[i])
    decreases |hops|
  {
    var init := hops[..|hops| - 1];
    if i < |hops| - 1 {
      HopAt(init, i);
      assert AllHops(hops)[43 * i..43 * i + 43] == AllHops(init)[43 * i..43 * i + 43];
    }
  }

  /** Where the parts of a payload lie, whatever follows it in memory or calldata. */
  lemma Offsets(p: Payload, tail: seq<byte>)
    ensures var data := Encoded(p) + tail;
      var n, m := |p.loans|, |p.hops|;
      && |Encoded(p)| == 35 + 52 * n + 43 * m
      && data[0..32] == ToBytes(p.minProfit, 32)
      && data[32] == p.lender.Id() && data[33] == n % 256
      && data[34..34 + 52 * n] == AllLoans(p.loans)
      && data[34 + 52 * n] == m % 256
      && data[35 + 52 * n..35 + 52 * n + 43 * m] == AllHops(p.hops)
  {
  }

  lemma HeaderDecodes(p: Payload, tail: seq<byte>)
    ensures var data := Encoded(p) + tail;
      && ReadMinProfit(data) == p.minProfit && ReadLenderId(data) == p.lender.Id()
      && ReadLoansLen(data) == |p.loans| % 256
      && (|p.loans| < 256 ==> ReadHopsLen(data) == |p.hops| % 256)
  {
    hide Encoded, Load, ByteAt, ToBytes, AllLoans, AllHops;
    Offsets(p, tail);
    var data := Encoded(p) + tail;
    LoadWord(data, 0, p.minProfit);
    LoadByte(data, 32, 0);
    LoadByte(data, 32, 1);
    if |p.loans| < 256 { LoadByte(data, HopsPtr(data), 0); }
  }

  lemma LoanDecodes(p: Payload, tail: seq<byte>, i: nat)
    requires i < |p.loans|
    ensures ReadToken(Encoded(p) + tail, i) == p.loans[i].token
    ensures ReadAmount(Encoded(p) + tail, i) == p.loans[i].amount
  {
    hide Encoded, Load, ShiftRight96;
    Offsets(p, tail);
    var data := Encoded(p) + tail;
    LoanAt(p.loans, i);
    var record := LoanBytes(p.loans[i]);
    SubRecord(data, 34, AllLoans(p.loans), 52 * i, 52 * i + 52);
    assert record[0..20] == ToBytes(p.loans[i].token, 20) && record[20..52] == ToBytes(p.loans[i].amount, 32);
    SubRecord(data, 34 + 52 * i, record, 0, 20);
    SubRecord(data, 34 + 52 * i, record, 20, 52);
    LoadAddress(data, 34 + 52 * i, p.loans[i].token);
    LoadWord(data, 54 + 52 * i, p.loans[i].amount);
  }

  lemma SubRecord(data: seq<byte>, ptr: nat, record: seq<byte>, from: nat, to: nat)
    requires ptr + |record| <= |data| && data[ptr..ptr + |record|] == record && from <= to <= |record|
    ensures data[ptr + from..ptr + to] == record[from..to]
  {
    forall k | 0 <= k < to - from ensures data[ptr + from..ptr + to][k] == record[from..to][k] {
      assert data[ptr..ptr + |record|][from + k] == record[from + k];
    }
  }

  lemma HopDecodes(p: Payload, tail: seq<byte>, i: nat)
    requires i < |p.hops|
    ensures ReadHop(Encoded(p) + tail, 35 + 52 * |p.loans| + 43 * i) == HopFields(p.hops[i])
  {
    hide Encoded, Load, ShiftRight96, ByteAt;
    Offsets(p, tail);
    var data := Encoded(p) + tail;
    var ptr := 35 + 52 * |p.loans| + 43 * i;
    HopAt(p.hops, i);
    SubRecord(data, 35 + 52 * |p.loans|, AllHops(p.hops), 43 * i, 43 * i + 43);
    HopRecordDecodes(data, ptr, p.hops[i]);
  }

  lemma HopRecordDecodes(data: seq<byte>, ptr: nat, hop: Hop)
    requires ptr + 43 <= |data| && data[ptr..ptr + 43] == HopBytes(hop)
    ensures ReadHop(data, ptr) == HopFields(hop)
  {
    hide Load, ShiftRight96, ByteAt, ToBytes;
    var record := HopBytes(hop);
    assert record[0..20] == ToBytes(hop.pool, 20) && record[20..40] == ToBytes(hop.tokenOut, 20);
    SubRecord(data, ptr, record, 0, 20);
    SubRecord(data, ptr, record, 20, 40);
    SubRecord(data, ptr, record, 40, 43);
    LoadAddress(data, ptr, hop.pool);
    LoadAddress(data, ptr + 20, hop.tokenOut);
    LoadByte(data, ptr + 40, 0);
    LoadByte(data, ptr + 40, 1);
    LoadByte(data, ptr + 40, 2);
    assert record[40] == data[ptr + 40] && record[41] == data[ptr + 41] && record[42] == data[ptr + 42];
  }

  /** The contract reads back exactly what the bot encoded, whatever bytes follow the payload, precisely
      when both lists have at most 255 elements. */
  lemma DecodesIff(p: Payload, tail: seq<byte>)
    ensures DecodesTo(Encoded(p) + tail, p) <==> |p.loans| <= 255 && |p.hops| <= 255
  {
    hide Encoded, ReadToken, ReadAmount, ReadHop, HopFields, ReadMinProfit, ReadLenderId, ReadLoansLen, ReadHopsLen;
    HeaderDecodes(p, tail);
    if |p.loans| <= 255 && |p.hops| <= 255 {
      forall i | 0 <= i < |p.loans|
        ensures DecodedTokens(Encoded(p) + tail)[i] == p.loans[i].token
        ensures DecodedAmounts(Encoded(p) + tail)[i] == p.loans[i].amount
      {
        LoanDecodes(p, tail, i);
      }
      forall i | 0 <= i < |p.hops| ensures DecodedHops(Encoded(p) + tail)[i] == HopFields(p.hops[i]) {
        HopDecodes(p, tail, i);
      }
    }
  }

  /** The fields of a payload that are encoded; a hop's token in and exchange name are not. */
  ghost predicate SameOnWire(p: Payload, q: Payload) {
    && p.minProfit == q.minProfit && p.lender.Id() == q.lender.Id() && p.loans == q.loans
    && |p.hops| == |q.hops|
    && forall i :: 0 <= i < |p.hops| ==> SameHop(p.hops[i], q.hops[i])
  }

  ghost predicate SameHop(a: Hop, b: Hop) {
    && a.pool == b.pool && a.tokenOut == b.tokenOut && a.dexType == b.dexType
    && a.zeroForOne == b.zeroForOne && a.isStable == b.isStable
  }

  lemma HopFieldsInjective(a: Hop, b: Hop)
    requires HopFields(a) == HopFields(b)
    ensures SameHop(a, b)
  {
  }

  lemma {:induction false} SameHopsSameBytes(a: seq<Hop>, b: seq<Hop>)
    requires |a| == |b| && forall i :: 0 <= i < |a| ==> SameHop(a[i], b[i])
    ensures AllHops(a) == AllHops(b)
    decreases |a|
  {
    if a != [] {
      SameHopsSameBytes(a[..|a| - 1], b[..|b| - 1]);
      assert SameHop(a[|a| - 1], b[|b| - 1]);
    }
  }

  /** Two payloads have the same bytes exactly when they agree on profit, lender number, loans and the
      encoded fields of every hop. */
  lemma EncodingIsInjective(p: Payload, q: Payload)
    requires |p.loans| <= 255 && |p.hops| <= 255 && |q.loans| <= 255 && |q.hops| <= 255
    ensures Encoded(p) == Encoded(q) <==> SameOnWire(p, q)
  {
    if SameOnWire(p, q) { SameHopsSameBytes(p.hops, q.hops); }
    if Encoded(p) == Encoded(q) { SameBytesSamePayload(p, q); }
  }

  lemma SameBytesSamePayload(p: Payload, q: Payload)
    requires |p.loans| <= 255 && |p.hops| <= 255 && |q.loans| <= 255 && |q.hops| <= 255
    requires Encoded(p) == Encoded(q)
    ensures SameOnWire(p, q)
  {
    hide Encoded, DecodedTokens, DecodedAmounts, DecodedHops, ReadMinProfit, ReadLenderId, HopFields;
    DecodesIff(p, []);
    DecodesIff(q, []);
    var data := Encoded(p) + [];
    forall i | 0 <= i < |p.loans| ensures p.loans[i] == q.loans[i] {
      assert DecodedTokens(data)[i] == q.loans[i].token;
      assert DecodedAmounts(data)[i] == q.loans[i].amount;
    }
    forall i | 0 <= i < |p.hops| ensures SameHop(p.hops[i], q.hops[i]) {
      assert DecodedHops(data)[i] == HopFields(q.hops[i]);
      HopFieldsInjective(p.hops[i], q.hops[i]);
    }
  }

  // ----- The layout in literal offsets ----------------------------------------------------------------

  /** The header: minimum profit, lender number, loan count, and the hop count after the loans. */
  lemma HeaderLayout(p: Payload)
    ensures var data, n := Encoded(p), |p.loans|;
      && |data| == 35 + 52 * n + 43 * |p.hops|
      && data[0..32] == ToBytes(p.minProfit, 32)
      && data[32] == (if p.lender == Balancer then 0 else if p.lender == AaveV3 then 1 else 2)
      && data[33] == n % 256
      && data[34 + 52 * n] == |p.hops| % 256
  {
    hide Encoded, ToBytes;
    Offsets(p, []);
    assert Encoded(p) + [] == Encoded(p);
  }

  /** Loan i: its token in 20 bytes from 34 + 52 i, its amount in the next 32. */
  lemma LoanLayout(p: Payload, i: nat)
    requires i < |p.loans|
    ensures var data, at := Encoded(p), 34 + 52 * i;
      && at + 52 <= |data|
      && data[at..at + 20] == ToBytes(p.loans[i].token, 20)
      && data[at + 20..at + 52] == ToBytes(p.loans[i].amount, 32)
  {
    hide Encoded, ToBytes, AllLoans, AllHops;
    var data, at := Encoded(p), 34 + 52 * i;
    Offsets(p, []);
    assert Encoded(p) + [] == Encoded(p);
    LoanAt(p.loans, i);
    var record := LoanBytes(p.loans[i]);
    SubRecord(data, 34, AllLoans(p.loans), 52 * i, 52 * i + 52);
    assert record[0..20] == ToBytes(p.loans[i].token, 20) && record[20..52] == ToBytes(p.loans[i].amount, 32);
    SubRecord(data, at, record, 0, 20);
    SubRecord(data, at, record, 20, 52);
  }

  /** Hop i after n loans, from 35 + 52 n + 43 i: its pool and token out in 20 bytes each, its type as 0 to
      3, and its two flags as 1 for true and 0 for false. */
  lemma HopLayout(p: Payload, i: nat)
    requires i < |p.hops|
    ensures var data, at, hop := Encoded(p), 35 + 52 * |p.loans| + 43 * i, p.hops[i];
      && at + 43 <= |data|
      && data[at..at + 20] == ToBytes(hop.pool, 20)
      && data[at + 20..at + 40] == ToBytes(hop.tokenOut, 20)
      && (data[at + 40] == 0 <==> hop.dexType == DexType.UniswapV2)
      && (data[at + 40] == 1 <==> hop.dexType == DexType.UniswapV3)
      && (data[at + 40] == 2 <==> hop.dexType == MaverickV2)
      && (data[at + 40] == 3 <==> hop.dexType == DexType.Aerodrome)
      && data[at + 41] == (if hop.zeroForOne then 1 else 0)
      && data[at + 42] == (if hop.isStable then 1 else 0)
  {
    hide Encoded, ToBytes, AllLoans, AllHops;
    var data, at, hop := Encoded(p), 35 + 52 * |p.loans| + 43 * i, p.hops[i];
    Offsets(p, []);
    assert Encoded(p) + [] == Encoded(p);
    HopAt(p.hops, i);
    var record := HopBytes(hop);
    SubRecord(data, 35 + 52 * |p.loans|, AllHops(p.hops), 43 * i, 43 * i + 43);
    assert record[0..20] == ToBytes(hop.pool, 20) && record[20..40] == ToBytes(hop.tokenOut, 20);
    assert data[at..at + 43] == record;
    SubRecord(data, at, record, 0, 20);
    SubRecord(data, at, record, 20, 40);
    assert data[at + 40] == record[40] && data[at + 41] == record[41] && data[at + 42] == record[42];
  }

  // ----- What the contract does with it -------------------------------------------------------------

  datatype Execution = SwapV2 | SwapV3 | SwapAerodrome | Skipped

  /** The contract's switch on the type byte of a hop. */
  function Dispatch(dexType: byte): Execution {
    if dexType == 0 then SwapV2 else if dexType == 3 then SwapAerodrome else if dexType == 1 then SwapV3 else Skipped
  }

  datatype Flash = FromBalancer | FromAave | NoLoan

  /** The contract's choice of the flash-loan source. */
  function FlashFrom(lenderId: byte): Flash {
    if lenderId == 0 then FromBalancer else if lenderId == 1 then FromAave else NoLoan
  }

  /** What the contract executes for the i-th hop it reads. */
  function Executed(data: seq<byte>, i: nat): Execution
    requires i < |DecodedHops(data)|
  {
    Dispatch(DecodedHops(data)[i].dexType)
  }

  /** Any flag but zero sells token 0; only the flag one asks for the stable curve. */
  function SellsToken0(hop: DecodedHop): bool { hop.zeroForOne != 0 }

  function OnStableCurve(hop: DecodedHop): bool { hop.isStable == 1 }

  /** Every hop is traded in the direction, and on the curve, that the payload gives it. */
  lemma HopsTradeAsMeant(p: Payload, tail: seq<byte>)
    requires |p.loans| <= 255 && |p.hops| <= 255
    ensures var hops := DecodedHops(Encoded(p) + tail);
      && |hops| == |p.hops|
      && forall i :: 0 <= i < |p.hops| ==>
        && (SellsToken0(hops[i]) <==> p.hops[i].zeroForOne)
        && (OnStableCurve(hops[i]) <==> p.hops[i].isStable)
        && hops[i].zeroForOne == (if p.hops[i].zeroForOne then 1 else 0)
        && hops[i].isStable == (if p.hops[i].isStable then 1 else 0)
  {
    hide Encoded, DecodedHops;
    DecodesIff(p, tail);
  }

  /** The two outputs a constant-product or Aerodrome swap asks the pool for. The second block stands
      behind an `if` without being its alternative, so it is always carried out. */
  function RequestedOutputs(hop: DecodedHop, amountOut: nat): (nat, nat) {
    (amountOut, if hop.zeroForOne != 0 then amountOut else 0)
  }

  /** A swap should ask for its output on the side it buys. It does so exactly when it sells token 1, or
      for nothing. */
  lemma RequestsOneSideIff(p: Payload, tail: seq<byte>, i: nat, amountOut: nat)
    requires |p.loans| <= 255 && i < |p.hops| <= 255
    ensures |DecodedHops(Encoded(p) + tail)| == |p.hops|
    ensures RequestedOutputs(DecodedHops(Encoded(p) + tail)[i], amountOut)
      == (if p.hops[i].zeroForOne then (0, amountOut) else (amountOut, 0))
      <==> !p.hops[i].zeroForOne || amountOut == 0
  {
    hide Encoded, DecodedHops;
    HopsTradeAsMeant(p, tail);
  }

  ghost predicate EveryHopSwaps(data: seq<byte>) {
    forall i :: 0 <= i < |DecodedHops(data)| ==> Executed(data, i) != Skipped
  }

  /** Not every hop of every payload swaps: all hops do exactly when none is a Maverick hop, and each of
      the other three types selects its own swap. */
  lemma EveryHopSwapsIff(p: Payload, tail: seq<byte>)
    requires |p.loans| <= 255 && |p.hops| <= 255
    ensures var data := Encoded(p) + tail;
      && (EveryHopSwaps(data) <==> forall hop :: hop in p.hops ==> hop.dexType != MaverickV2)
      && |DecodedHops(data)| == |p.hops|
      && forall i :: 0 <= i < |p.hops| ==>
        && (Executed(data, i) == SwapV2 <==> p.hops[i].dexType == DexType.UniswapV2)
        && (Executed(data, i) == SwapV3 <==> p.hops[i].dexType == DexType.UniswapV3)
        && (Executed(data, i) == SwapAerodrome <==> p.hops[i].dexType == DexType.Aerodrome)
  {
    hide Encoded, DecodedHops;
    DecodesIff(p, tail);
    var data := Encoded(p) + tail;
    forall i | 0 <= i < |p.hops| ensures DecodedHops(data)[i].dexType == p.hops[i].dexType.Discriminant() {
      assert DecodedHops(data)[i] == HopFields(p.hops[i]);
    }
    if EveryHopSwaps(data) {
      forall hop | hop in p.hops ensures hop.dexType != MaverickV2 {
        var i :| 0 <= i < |p.hops| && p.hops[i] == hop;
        assert Executed(data, i) != Skipped;
      }
    }
  }

  /** Not every lender starts a loan: one is started exactly for Balancer and Aave, each from its own
      source, however long the lists. */
  lemma LoanStartsIff(p: Payload, tail: seq<byte>)
    ensures var flash := FlashFrom(ReadLenderId(Encoded(p) + tail));
      && (flash != NoLoan <==> p.lender == Balancer || p.lender == AaveV3)
      && (flash == FromBalancer <==> p.lender == Balancer)
      && (flash == FromAave <==> p.lender == AaveV3)
  {
    hide Encoded, ReadLenderId;
    HeaderDecodes(p, tail);
  }

  /** One payload that executes nothing: a single Maverick hop, lent by Curve. */
  lemma NothingExecuted(hop: Hop)
    requires hop.dexType == MaverickV2
    ensures var data := Encoded(Payload(0, Curve, [], [hop]));
      |DecodedHops(data)| == 1 && Executed(data, 0) == Skipped && FlashFrom(ReadLenderId(data)) == NoLoan
  {
    hide Encoded, DecodedHops, ReadLenderId;
    var p := Payload(0, Curve, [], [hop]);
    EveryHopSwapsIff(p, []);
    LoanStartsIff(p, []);
    assert Encoded(p) + [] == Encoded(p);
  }
}
