// The check code of libutil/hpcrc.c: a table-driven remainder in which the high
// byte of the register is accumulated without being shifted out.

module Hpcrc {

  // ---------------------------------------------------------------------
  // The table, in the 32 rows of 8 entries of the source
  // ---------------------------------------------------------------------

  function Row0(c: bv8): bv16 {
    if c == 0 then 0x0000 else if c == 1 then 0x8005 else if c == 2 then 0x800f else if c == 3 then 0x000a else
    if c == 4 then 0x801b else if c == 5 then 0x001e else if c == 6 then 0x0014 else 0x8011
  }

  function Row1(c: bv8): bv16 {
    if c == 0 then 0x8033 else if c == 1 then 0x0036 else if c == 2 then 0x003c else if c == 3 then 0x8039 else
    if c == 4 then 0x0028 else if c == 5 then 0x802d else if c == 6 then 0x8027 else 0x0022
  }

  function Row2(c: bv8): bv16 {
    if c == 0 then 0x8063 else if c == 1 then 0x0066 else if c == 2 then 0x006c else if c == 3 then 0x8069 else
    if c == 4 then 0x0078 else if c == 5 then 0x807d else if c == 6 then 0x8077 else 0x0072
  }

  function Row3(c: bv8): bv16 {
    if c == 0 then 0x0050 else if c == 1 then 0x8055 else if c == 2 then 0x805f else if c == 3 then 0x005a else
    if c == 4 then 0x804b else if c == 5 then 0x004e else if c == 6 then 0x0044 else 0x8041
  }

  function Row4(c: bv8): bv16 {
    if c == 0 then 0x80c3 else if c == 1 then 0x00c6 else if c == 2 then 0x00cc else if c == 3 then 0x80c9 else
    if c == 4 then 0x00d8 else if c == 5 then 0x80dd else if c == 6 then 0x80d7 else 0x00d2
  }

  function Row5(c: bv8): bv16 {
    if c == 0 then 0x00f0 else if c == 1 then 0x80f5 else if c == 2 then 0x80ff else if c == 3 then 0x00fa else
    if c == 4 then 0x80eb else if c == 5 then 0x00ee else if c == 6 then 0x00e4 else 0x80e1
  }

  function Row6(c: bv8): bv16 {
    if c == 0 then 0x00a0 else if c == 1 then 0x80a5 else if c == 2 then 0x80af else if c == 3 then 0x00aa else
    if c == 4 then 0x80bb else if c == 5 then 0x00be else if c == 6 then 0x00b4 else 0x80b1
  }

  function Row7(c: bv8): bv16 {
    if c == 0 then 0x8093 else if c == 1 then 0x0096 else if c == 2 then 0x009c else if c == 3 then 0x8099 else
    if c == 4 then 0x0088 else if c == 5 then 0x808d else if c == 6 then 0x8087 else 0x0082
  }

  function Row8(c: bv8): bv16 {
    if c == 0 then 0x8183 else if c == 1 then 0x0186 else if c == 2 then 0x018c else if c == 3 then 0x8189 else
    if c == 4 then 0x0198 else if c == 5 then 0x819d else if c == 6 then 0x8197 else 0x0192
  }

  function Row9(c: bv8): bv16 {
    if c == 0 then 0x01b0 else if c == 1 then 0x81b5 else if c == 2 then 0x81bf else if c == 3 then 0x01ba else
    if c == 4 then 0x81ab else if c == 5 then 0x01ae else if c == 6 then 0x01a4 else 0x81a1
  }

  function Row10(c: bv8): bv16 {
    if c == 0 then 0x01e0 else if c == 1 then 0x81e5 else if c == 2 then 0x81ef else if c == 3 then 0x01ea else
    if c == 4 then 0x81fb else if c == 5 then 0x01fe else if c == 6 then 0x01f4 else 0x81f1
  }

  function Row11(c: bv8): bv16 {
    if c == 0 then 0x81d3 else if c == 1 then 0x01d6 else if c == 2 then 0x01dc else if c == 3 then 0x81d9 else
    if c == 4 then 0x01c8 else if c == 5 then 0x81cd else if c == 6 then 0x81c7 else 0x01c2
  }

  function Row12(c: bv8): bv16 {
    if c == 0 then 0x0140 else if c == 1 then 0x8145 else if c == 2 then 0x814f else if c == 3 then 0x014a else
    if c == 4 then 0x815b else if c == 5 then 0x015e else if c == 6 then 0x0154 else 0x8151
  }

  function Row13(c: bv8): bv16 {
    if c == 0 then 0x8173 else if c == 1 then 0x0176 else if c == 2 then 0x017c else if c == 3 then 0x8179 else
    if c == 4 then 0x0168 else if c == 5 then 0x816d else if c == 6 then 0x8167 else 0x0162
  }

  function Row14(c: bv8): bv16 {
    if c == 0 then 0x8123 else if c == 1 then 0x0126 else if c == 2 then 0x012c else if c == 3 then 0x8129 else
    if c == 4 then 0x0138 else if c == 5 then 0x813d else if c == 6 then 0x8137 else 0x0132
  }

  function Row15(c: bv8): bv16 {
    if c == 0 then 0x0110 else if c == 1 then 0x8115 else if c == 2 then 0x811f else if c == 3 then 0x011a else
    if c == 4 then 0x810b else if c == 5 then 0x010e else if c == 6 then 0x0104 else 0x8101
  }

  function Row16(c: bv8): bv16 {
    if c == 0 then 0x8303 else if c == 1 then 0x0306 else if c == 2 then 0x030c else if c == 3 then 0x8309 else
    if c == 4 then 0x0318 else if c == 5 then 0x831d else if c == 6 then 0x8317 else 0x0312
  }

  function Row17(c: bv8): bv16 {
    if c == 0 then 0x0330 else if c == 1 then 0x8335 else if c == 2 then 0x833f else if c == 3 then 0x033a else
    if c == 4 then 0x832b else if c == 5 then 0x032e else if c == 6 then 0x0324 else 0x8321
  }

  function Row18(c: bv8): bv16 {
    if c == 0 then 0x0360 else if c == 1 then 0x8365 else if c == 2 then 0x836f else if c == 3 then 0x036a else
    if c == 4 then 0x837b else if c == 5 then 0x037e else if c == 6 then 0x0374 else 0x8371
  }

  function Row19(c: bv8): bv16 {
    if c == 0 then 0x8353 else if c == 1 then 0x0356 else if c == 2 then 0x035c else if c == 3 then 0x8359 else
    if c == 4 then 0x0348 else if c == 5 then 0x834d else if c == 6 then 0x8347 else 0x0342
  }

  function Row20(c: bv8): bv16 {
    if c == 0 then 0x03c0 else if c == 1 then 0x83c5 else if c == 2 then 0x83cf else if c == 3 then 0x03ca else
    if c == 4 then 0x83db else if c == 5 then 0x03de else if c == 6 then 0x03d4 else 0x83d1
  }

  function Row21(c: bv8): bv16 {
    if c == 0 then 0x83f3 else if c == 1 then 0x03f6 else if c == 2 then 0x03fc else if c == 3 then 0x83f9 else
    if c == 4 then 0x03e8 else if c == 5 then 0x83ed else if c == 6 then 0x83e7 else 0x03e2
  }

  function Row22(c: bv8): bv16 {
    if c == 0 then 0x83a3 else if c == 1 then 0x03a6 else if c == 2 then 0x03ac else if c == 3 then 0x83a9 else
    if c == 4 then 0x03b8 else if c == 5 then 0x83bd else if c == 6 then 0x83b7 else 0x03b2
  }

  function Row23(c: bv8): bv16 {
    if c == 0 then 0x0390 else if c == 1 then 0x8395 else if c == 2 then 0x839f else if c == 3 then 0x039a else
    if c == 4 then 0x838b else if c == 5 then 0x038e else if c == 6 then 0x0384 else 0x8381
  }

  function Row24(c: bv8): bv16 {
    if c == 0 then 0x0280 else if c == 1 then 0x8285 else if c == 2 then 0x828f else if c == 3 then 0x028a else
    if c == 4 then 0x829b else if c == 5 then 0x029e else if c == 6 then 0x0294 else 0x8291
  }

  function Row25(c: bv8): bv16 {
    if c == 0 then 0x82b3 else if c == 1 then 0x02b6 else if c == 2 then 0x02bc else if c == 3 then 0x82b9 else
    if c == 4 then 0x02a8 else if c == 5 then 0x82ad else if c == 6 then 0x82a7 else 0x02a2
  }

  function Row26(c: bv8): bv16 {
    if c == 0 then 0x82e3 else if c == 1 then 0x02e6 else if c == 2 then 0x02ec else if c == 3 then 0x82e9 else
    if c == 4 then 0x02f8 else if c == 5 then 0x82fd else if c == 6 then 0x82f7 else 0x02f2
  }

  function Row27(c: bv8): bv16 {
    if c == 0 then 0x02d0 else if c == 1 then 0x82d5 else if c == 2 then 0x82df else if c == 3 then 0x02da else
    if c == 4 then 0x82cb else if c == 5 then 0x02ce else if c == 6 then 0x02c4 else 0x82c1
  }

  function Row28(c: bv8): bv16 {
    if c == 0 then 0x8243 else if c == 1 then 0x0246 else if c == 2 then 0x024c else if c == 3 then 0x8249 else
    if c == 4 then 0x0258 else if c == 5 then 0x825d else if c == 6 then 0x8257 else 0x0252
  }

  function Row29(c: bv8): bv16 {
    if c == 0 then 0x0270 else if c == 1 then 0x8275 else if c == 2 then 0x827f else if c == 3 then 0x027a else
    if c == 4 then 0x826b else if c == 5 then 0x026e else if c == 6 then 0x0264 else 0x8261
  }

  function Row30(c: bv8): bv16 {
    if c == 0 then 0x0220 else if c == 1 then 0x8225 else if c == 2 then 0x822f else if c == 3 then 0x022a else
    if c == 4 then 0x823b else if c == 5 then 0x023e else if c == 6 then 0x0234 else 0x8231
  }

  function Row31(c: bv8): bv16 {
    if c == 0 then 0x8213 else if c == 1 then 0x0216 else if c == 2 then 0x021c else if c == 3 then 0x8219 else
    if c == 4 then 0x0208 else if c == 5 then 0x820d else if c == 6 then 0x8207 else 0x0202
  }

  // The register value the table holds for the low byte `i`.
  function TableEntry(i: bv8): bv16 {
    var r, c := i >> 3, i & 7;
    if r == 0 then Row0(c)
    else if r == 1 then Row1(c)
    else if r == 2 then Row2(c)
    else if r == 3 then Row3(c)
    else if r == 4 then Row4(c)
    else if r == 5 then Row5(c)
    else if r == 6 then Row6(c)
    else if r == 7 then Row7(c)
    else if r == 8 then Row8(c)
    else if r == 9 then Row9(c)
    else if r == 10 then Row10(c)
    else if r == 11 then Row11(c)
    else if r == 12 then Row12(c)
    else if r == 13 then Row13(c)
    else if r == 14 then Row14(c)
    else if r == 15 then Row15(c)
    else if r == 16 then Row16(c)
    else if r == 17 then Row17(c)
    else if r == 18 then Row18(c)
    else if r == 19 then Row19(c)
    else if r == 20 then Row20(c)
    else if r == 21 then Row21(c)
    else if r == 22 then Row22(c)
    else if r == 23 then Row23(c)
    else if r == 24 then Row24(c)
    else if r == 25 then Row25(c)
    else if r == 26 then Row26(c)
    else if r == 27 then Row27(c)
    else if r == 28 then Row28(c)
    else if r == 29 then Row29(c)
    else if r == 30 then Row30(c)
    else Row31(c)
  }

  // ---------------------------------------------------------------------
  // What the table tabulates
  // ---------------------------------------------------------------------

  const POLYNOMIAL: bv16 := 0x8005

  // One bit of the long division, most significant bit first.
  function DivideBit(r: bv16): bv16 {
    if r & 0x8000 != 0 then (r << 1) ^ POLYNOMIAL else r << 1
  }

  // The table entry of a byte computed by eight division steps.
  function BitSerialEntry(i: bv8): bv16 {
    DivideBit(DivideBit(DivideBit(DivideBit(
      DivideBit(DivideBit(DivideBit(DivideBit((i as bv16) << 8))))))))
  }

  // The parity of the low eight bits.
  function Parity(w: bv16): bv16 {
    var a := w ^ (w >> 4);
    var b := a ^ (a >> 2);
    (b ^ (b >> 1)) & 1
  }

  // A closed form of the division, made of shifts and exclusive ors only:
  // 0x8003 is added when the parity is odd.
  function ClosedEntry(w: bv16): bv16 {
    var p := Parity(w);
    ((w << 1) ^ (w << 2)) ^ (p ^ (p << 1) ^ (p << 15))
  }

  lemma TableIsClosed(i: bv8)
    ensures TableEntry(i) == ClosedEntry(i as bv16)
  {
  }

  lemma TableIsBitSerial(i: bv8)
    ensures TableEntry(i) == BitSerialEntry(i)
  {
    TableIsClosed(i);
    assert BitSerialEntry(i) == ClosedEntry(i as bv16);
  }

  lemma ClosedLowByteIsInjective(v: bv16, w: bv16)
    requires v < 256 && w < 256
    requires LowByte(ClosedEntry(v)) == LowByte(ClosedEntry(w))
    ensures v == w
  {
  }

  // ---------------------------------------------------------------------
  // The check code, over any table
  // ---------------------------------------------------------------------

  type Table = bv8 -> bv16

  function LowByte(r: bv16): bv8 {
    (r & 0xff) as bv8
  }

  function Add16(a: bv16, b: bv16): bv16 { a ^ b }

  function Add8(a: bv8, b: bv8): bv8 { a ^ b }

  function Keep(crc: bv16): bv16 { crc & 0xff00 }

  // One turn of the loop: the low byte of the register selects the entry, the
  // high byte stays where it is.
  function Step(table: Table, crc: bv16, b: bv8): bv16 {
    Add16(Keep(crc), table(Add8(LowByte(crc), b)))
  }

  function Fold(table: Table, crc: bv16, bytes: seq<bv8>): bv16
    decreases |bytes|
  {
    if bytes == [] then crc else Fold(table, Step(table, crc, bytes[0]), bytes[1..])
  }

  lemma FoldTurn(table: Table, crc: bv16, bytes: seq<bv8>, i: nat)
    requires i < |bytes|
    ensures Fold(table, crc, bytes[i..]) == Fold(table, Step(table, crc, bytes[i]), bytes[i + 1..])
  {
    assert bytes[i..][1..] == bytes[i + 1..];
  }

  method Hpcrc(buffer: seq<bv8>) returns (crc: bv16)
    ensures crc == Fold(BitSerialEntry, 0, buffer)
  {
    crc := 0;
    var i := 0;
    while i < |buffer|
      invariant 0 <= i <= |buffer|
      invariant Fold(TableEntry, crc, buffer[i..]) == Fold(TableEntry, 0, buffer)
    {
      FoldTurn(TableEntry, crc, buffer, i);
      crc := (crc & 0xff00) ^ TableEntry(LowByte(crc) ^ buffer[i]);
      i := i + 1;
    }
    HpcrcIsBitSerial(buffer);
  }

  // The table loop computes what eight bit-serial division steps a byte compute.
  lemma HpcrcIsBitSerial(buffer: seq<bv8>)
    ensures Fold(TableEntry, 0, buffer) == Fold(BitSerialEntry, 0, buffer)
  {
    forall i ensures TableEntry(i) == BitSerialEntry(i) {
      TableIsBitSerial(i);
    }
    EqualTablesFoldEqually(TableEntry, BitSerialEntry, 0, buffer);
  }

  lemma {:induction false} EqualTablesFoldEqually(t: Table, u: Table, crc: bv16, bytes: seq<bv8>)
    requires forall i :: t(i) == u(i)
    ensures Fold(t, crc, bytes) == Fold(u, crc, bytes)
    decreases |bytes|
  {
    if bytes != [] {
      EqualTablesFoldEqually(t, u, Step(t, crc, bytes[0]), bytes[1..]);
    }
  }

  // ---------------------------------------------------------------------
  // Linearity: first over any group of registers G and bytes B, so that the
  // induction does not look inside words, then for the 16-bit register
  // ---------------------------------------------------------------------

  ghost predicate Additive<A(!new), G>(f: A -> G, plus: (A, A) -> A, add: (G, G) -> G) {
    forall x, y :: f(plus(x, y)) == add(f(x), f(y))
  }

  ghost predicate StepAdditive<G(!new), B(!new)>(step: (G, B) -> G, add: (G, G) -> G, plus: (B, B) -> B) {
    forall p, q, x, y :: step(add(p, q), plus(x, y)) == add(step(p, x), step(q, y))
  }

  ghost predicate Associates<G>(add: (G, G) -> G, a: G, b: G, c: G) {
    add(add(a, b), c) == add(a, add(b, c))
  }

  ghost predicate Regroups<G>(add: (G, G) -> G, a: G, b: G, c: G, d: G) {
    add(add(a, b), add(c, d)) == add(add(a, c), add(b, d))
  }

  function FoldOver<G, B>(step: (G, B) -> G, r: G, bytes: seq<B>): G
    decreases |bytes|
  {
    if bytes == [] then r else FoldOver(step, step(r, bytes[0]), bytes[1..])
  }

  function Zip<B>(plus: (B, B) -> B, a: seq<B>, b: seq<B>): (c: seq<B>)
    requires |a| == |b|
  {
    seq(|a|, i requires 0 <= i < |a| => plus(a[i], b[i]))
  }

  lemma {:induction false} FoldOverIsAdditive<G(!new), B(!new)>(
    step: (G, B) -> G, add: (G, G) -> G, plus: (B, B) -> B, p: G, q: G, a: seq<B>, b: seq<B>)
    requires StepAdditive(step, add, plus)
    requires |a| == |b|
    ensures FoldOver(step, add(p, q), Zip(plus, a, b)) == add(FoldOver(step, p, a), FoldOver(step, q, b))
    decreases |a|
  {
    if a != [] {
      assert Zip(plus, a, b)[1..] == Zip(plus, a[1..], b[1..]);
      FoldOverIsAdditive(step, add, plus, step(p, a[0]), step(q, b[0]), a[1..], b[1..]);
    }
  }

  lemma EightDivisionsAreAdditive<G(!new)>(divide: G -> G, add: (G, G) -> G, x: G, y: G)
    requires Additive(divide, add, add)
    ensures Eightfold(divide, add(x, y)) == add(Eightfold(divide, x), Eightfold(divide, y))
  {
  }

  function Eightfold<G>(f: G -> G, x: G): G {
    f(f(f(f(f(f(f(f(x))))))))
  }

  lemma TableIsAdditive<G(!new), B(!new)>(
    table: B -> G, load: B -> G, divide: G -> G, add: (G, G) -> G, plus: (B, B) -> B)
    requires forall i :: table(i) == Eightfold(divide, load(i))
    requires Additive(divide, add, add)
    requires Additive(load, plus, add)
    ensures Additive(table, plus, add)
  {
    forall i, j ensures table(plus(i, j)) == add(table(i), table(j)) {
      EightDivisionsAreAdditive(divide, add, load(i), load(j));
    }
  }

  lemma StepIsAdditive<G(!new), B(!new)>(
    keep: G -> G, low: G -> B, table: B -> G, add: (G, G) -> G, plus: (B, B) -> B, p: G, q: G, x: B, y: B)
    requires Additive(keep, add, add) && Additive(low, add, plus) && Additive(table, plus, add)
    requires Regroups(plus, low(p), low(q), x, y)
    requires Regroups(add, keep(p), keep(q), table(plus(low(p), x)), table(plus(low(q), y)))
    ensures add(keep(add(p, q)), table(plus(low(add(p, q)), plus(x, y))))
         == add(add(keep(p), table(plus(low(p), x))), add(keep(q), table(plus(low(q), y))))
  {
  }

  function Load(i: bv8): bv16 { (i as bv16) << 8 }

  // DivideBit adds where neither, one or both of the top bits are set.
  lemma DivideBitNeither(a: bv16, b: bv16)
    requires a & 0x8000 == 0 && b & 0x8000 == 0
    ensures DivideBit(a ^ b) == DivideBit(a) ^ DivideBit(b)
  {
  }

  lemma DivideBitOne(a: bv16, b: bv16)
    requires a & 0x8000 == 0 && b & 0x8000 != 0
    ensures DivideBit(a ^ b) == DivideBit(a) ^ DivideBit(b)
  {
  }

  lemma DivideBitBoth(a: bv16, b: bv16)
    requires a & 0x8000 != 0 && b & 0x8000 != 0
    ensures DivideBit(a ^ b) == DivideBit(a) ^ DivideBit(b)
  {
  }

  lemma DivideBitIsAdditive()
    ensures Additive(DivideBit, Add16, Add16)
  {
    forall a, b ensures DivideBit(Add16(a, b)) == Add16(DivideBit(a), DivideBit(b)) {
      if a & 0x8000 == 0 {
        if b & 0x8000 == 0 {
          DivideBitNeither(a, b);
        } else {
          DivideBitOne(a, b);
        }
      } else if b & 0x8000 == 0 {
        DivideBitOne(b, a);
      } else {
        DivideBitBoth(a, b);
      }
    }
  }

  lemma TableEntryIsAdditive()
    ensures Additive(TableEntry, Add8, Add16)
  {
    forall i ensures TableEntry(i) == Eightfold(DivideBit, Load(i)) {
      TableIsBitSerial(i);
    }
    assert Additive(Load, Add8, Add16);
    DivideBitIsAdditive();
    TableIsAdditive(TableEntry, Load, DivideBit, Add16, Add8);
  }

  function HpcrcStep(crc: bv16, b: bv8): bv16 {
    Step(TableEntry, crc, b)
  }

  lemma HpcrcStepIsAdditive()
    ensures StepAdditive(HpcrcStep, Add16, Add8)
  {
    forall p, q, x, y ensures HpcrcStep(Add16(p, q), Add8(x, y)) == Add16(HpcrcStep(p, x), HpcrcStep(q, y)) {
      Regroup8(LowByte(p), LowByte(q), x, y);
      Regroup16(Keep(p), Keep(q), TableEntry(Add8(LowByte(p), x)), TableEntry(Add8(LowByte(q), y)));
      KeepAndLowAreAdditive();
      TableEntryIsAdditive();
      StepIsAdditive(Keep, LowByte, TableEntry, Add16, Add8, p, q, x, y);
    }
  }

  lemma KeepAndLowAreAdditive()
    ensures Additive(Keep, Add16, Add16) && Additive(LowByte, Add16, Add8)
  {
  }

  lemma RegroupByLaws<G>(add: (G, G) -> G, a: G, b: G, c: G, d: G)
    requires Associates(add, a, b, add(c, d)) && Associates(add, b, c, d) && Associates(add, c, b, d)
    requires Associates(add, a, c, add(b, d)) && add(b, c) == add(c, b)
    ensures Regroups(add, a, b, c, d)
  {
  }

  lemma Associate8(a: bv8, b: bv8, c: bv8)
    ensures Associates(Add8, a, b, c)
  {
  }

  lemma Associate16(a: bv16, b: bv16, c: bv16)
    ensures Associates(Add16, a, b, c)
  {
    XorAssociates(a, b, c, a ^ b, b ^ c);
  }

  lemma XorAssociates(a: bv16, b: bv16, c: bv16, ab: bv16, bc: bv16)
    requires ab == a ^ b && bc == b ^ c
    ensures ab ^ c == a ^ bc
  {
  }

  lemma Regroup8(a: bv8, b: bv8, c: bv8, d: bv8)
    ensures Regroups(Add8, a, b, c, d)
  {
    Associate8(a, b, Add8(c, d));
    Associate8(b, c, d);
    Associate8(c, b, d);
    Associate8(a, c, Add8(b, d));
    RegroupByLaws(Add8, a, b, c, d);
  }

  lemma Regroup16(a: bv16, b: bv16, c: bv16, d: bv16)
    ensures Regroups(Add16, a, b, c, d)
  {
    Associate16(a, b, Add16(c, d));
    Associate16(b, c, d);
    Associate16(c, b, d);
    Associate16(a, c, Add16(b, d));
    RegroupByLaws(Add16, a, b, c, d);
  }

  lemma {:induction false} FoldIsFoldOver(table: Table, step: (bv16, bv8) -> bv16, crc: bv16, bytes: seq<bv8>)
    requires forall r, b :: step(r, b) == Step(table, r, b)
    ensures Fold(table, crc, bytes) == FoldOver(step, crc, bytes)
    decreases |bytes|
  {
    if bytes != [] {
      FoldIsFoldOver(table, step, step(crc, bytes[0]), bytes[1..]);
    }
  }

  lemma HpcrcIsFoldOver(bytes: seq<bv8>)
    ensures Fold(TableEntry, 0, bytes) == FoldOver(HpcrcStep, 0, bytes)
  {
    FoldIsFoldOver(TableEntry, HpcrcStep, 0, bytes);
  }

  // The check code of the exclusive or of two buffers of one length is the
  // exclusive or of their check codes.
  lemma HpcrcIsLinear(a: seq<bv8>, b: seq<bv8>)
    requires |a| == |b|
    ensures Fold(TableEntry, 0, Zip(Add8, a, b)) == Add16(Fold(TableEntry, 0, a), Fold(TableEntry, 0, b))
  {
    HpcrcStepIsAdditive();
    assert Add16(0, 0) == 0;
    FoldOverIsAdditive(HpcrcStep, Add16, Add8, 0, 0, a, b);
    HpcrcIsFoldOver(a);
    HpcrcIsFoldOver(b);
    HpcrcIsFoldOver(Zip(Add8, a, b));
  }

  // ---------------------------------------------------------------------
  // Error detection
  // ---------------------------------------------------------------------

  // No two entries share their low byte.
  ghost predicate LowColumnInjective(table: Table) {
    forall i, j :: LowByte(table(i)) == LowByte(table(j)) ==> i == j
  }

  lemma LowColumnIsInjective()
    ensures LowColumnInjective(TableEntry)
  {
    forall i, j | LowByte(TableEntry(i)) == LowByte(TableEntry(j)) ensures i == j {
      TableIsClosed(i);
      TableIsClosed(j);
      ClosedLowByteIsInjective(i as bv16, j as bv16);
    }
  }

  lemma StepKeepsLowBytesApart(table: Table, p: bv16, x: bv8, q: bv16, y: bv8)
    requires LowColumnInjective(table)
    requires Add8(LowByte(p), x) != Add8(LowByte(q), y)
    ensures LowByte(Step(table, p, x)) != LowByte(Step(table, q, y))
  {
    var i, j := Add8(LowByte(p), x), Add8(LowByte(q), y);
    LowByteIgnoresHigh(p, table(i));
    LowByteIgnoresHigh(q, table(j));
    assert LowByte(table(i)) != LowByte(table(j));
  }

  lemma LowByteIgnoresHigh(crc: bv16, entry: bv16)
    ensures LowByte(Add16(Keep(crc), entry)) == LowByte(entry)
  {
  }

  // Two registers whose low bytes differ are kept apart by equal input, for ever.
  lemma {:induction false} DifferenceSurvives(table: Table, p: bv16, q: bv16, bytes: seq<bv8>)
    requires LowColumnInjective(table)
    requires LowByte(p) != LowByte(q)
    ensures Fold(table, p, bytes) != Fold(table, q, bytes)
    decreases |bytes|
  {
    if bytes != [] {
      StepKeepsLowBytesApart(table, p, bytes[0], q, bytes[0]);
      DifferenceSurvives(table, Step(table, p, bytes[0]), Step(table, q, bytes[0]), bytes[1..]);
    }
  }

  lemma {:induction false} FoldAppend(table: Table, crc: bv16, a: seq<bv8>, b: seq<bv8>)
    ensures Fold(table, crc, a + b) == Fold(table, Fold(table, crc, a), b)
    decreases |a|
  {
    if a == [] {
      assert a + b == b;
    } else {
      assert (a + b)[1..] == a[1..] + b;
      FoldAppend(table, Step(table, crc, a[0]), a[1..], b);
    }
  }

  lemma ChangeDetected(table: Table, bytes: seq<bv8>, k: nat, b: bv8)
    requires LowColumnInjective(table)
    requires k < |bytes| && b != bytes[k]
    ensures Fold(table, 0, bytes[k := b]) != Fold(table, 0, bytes)
  {
    var before, after := bytes[..k], bytes[k+1..];
    var r := Fold(table, 0, before);
    assert bytes == before + ([bytes[k]] + after);
    assert bytes[k := b] == before + ([b] + after);
    FoldAppend(table, 0, before, [bytes[k]] + after);
    FoldAppend(table, 0, before, [b] + after);
    StepKeepsLowBytesApart(table, r, bytes[k], r, b);
    DifferenceSurvives(table, Step(table, r, bytes[k]), Step(table, r, b), after);
  }

  // A buffer and the same buffer with one byte changed never share a check
  // code, however long the buffer is.
  lemma DetectsSingleByteChange(bytes: seq<bv8>, k: nat, b: bv8)
    requires k < |bytes| && b != bytes[k]
    ensures Fold(TableEntry, 0, bytes[k := b]) != Fold(TableEntry, 0, bytes)
  {
    LowColumnIsInjective();
    ChangeDetected(TableEntry, bytes, k, b);
  }
}
