/** Where the string heap puts its strings: next-fit packing into cells, and the
    direct-mapped table in front of it, as values. */
module StringLayout {

  type Byte = c: int | 0 <= c < 256

  /** The characters of a C string, without the terminating nul. */
  type Text = t: seq<Byte> | 0 !in t

  const HEAPCELL: nat := 0x10000
  const HASH_SIZE: nat := 4096

  /** The number of cells and the fill of the last one. */
  datatype Fill = Fill(cells: nat, ptr: nat)

  /** A place in the heap: the number of a cell and an offset. */
  datatype Spot = Spot(cell: nat, off: nat)

  function Size(text: Text): nat {
    |text| + 1
  }

  predicate Fitting(texts: seq<Text>) {
    forall i | 0 <= i < |texts| :: Size(texts[i]) <= HEAPCELL
  }

  /** The place the next string of n bytes gets. */
  function SpotFor(f: Fill, n: nat): Spot
    requires n > 0 && (f.cells == 0 ==> f.ptr == HEAPCELL)
  {
    if HEAPCELL - f.ptr < n then Spot(f.cells, 0) else Spot(f.cells - 1, f.ptr)
  }

  function Grow(f: Fill, n: nat): Fill {
    if HEAPCELL - f.ptr < n then Fill(f.cells + 1, n) else Fill(f.cells, f.ptr + n)
  }

  /** The fill after a sequence of additions; at first there is no room at all. */
  function FillOf(texts: seq<Text>): (f: Fill)
    ensures f.cells == 0 ==> f.ptr == HEAPCELL
  {
    if texts == [] then Fill(0, HEAPCELL)
    else Grow(FillOf(texts[..|texts| - 1]), Size(texts[|texts| - 1]))
  }

  /** The place of the i-th string. */
  function SpotOf(texts: seq<Text>, i: nat): Spot
    requires i < |texts|
  {
    SpotFor(FillOf(texts[..i]), Size(texts[i]))
  }

  lemma {:induction false} FillBounds(texts: seq<Text>)
    requires Fitting(texts)
    ensures FillOf(texts).ptr <= HEAPCELL
    ensures FillOf(texts).cells == 0 <==> texts == []
  {
    if texts != [] {
      FillBounds(texts[..|texts| - 1]);
    }
  }

  /** A stored string lies inside one cell, and inside the filled part of the last one. */
  lemma {:induction false} SpotInside(texts: seq<Text>, i: nat)
    requires Fitting(texts) && i < |texts|
    ensures var s, f := SpotOf(texts, i), FillOf(texts);
            && s.cell < f.cells
            && s.off + Size(texts[i]) <= HEAPCELL
            && (s.cell == f.cells - 1 ==> s.off + Size(texts[i]) <= f.ptr)
    decreases |texts|
  {
    var n := |texts| - 1;
    var before := texts[..n];
    FillBounds(before);
    if i == n {
      assert texts[..i] == before;
    } else {
      assert before[..i] == texts[..i];
      SpotInside(before, i);
    }
  }

  predicate Disjoint(a: Spot, m: nat, b: Spot, n: nat) {
    a.cell != b.cell || a.off + m <= b.off || b.off + n <= a.off
  }

  /** No two stored strings overlap, terminators included. */
  lemma SpotsDisjoint(texts: seq<Text>, i: nat, j: nat)
    requires Fitting(texts) && i < j < |texts|
    ensures Disjoint(SpotOf(texts, i), Size(texts[i]), SpotOf(texts, j), Size(texts[j]))
  {
    var before := texts[..j];
    assert before[..i] == texts[..i];
    SpotInside(before, i);
  }

  /** Adding strings does not move the earlier ones. */
  lemma SpotStable(texts: seq<Text>, more: seq<Text>, i: nat)
    requires i < |texts|
    ensures SpotOf(texts + more, i) == SpotOf(texts, i)
  {
    assert (texts + more)[..i] == texts[..i];
  }

  /** What one more addition does to the layout. */
  lemma AddLayout(texts: seq<Text>, text: Text)
    requires Fitting(texts) && Size(text) <= HEAPCELL
    ensures var more, f, n := texts + [text], FillOf(texts), Size(text);
            && f.ptr <= HEAPCELL
            && Fitting(more)
            && FillOf(more) == Grow(f, n)
            && SpotOf(more, |texts|) == SpotFor(f, n)
  {
    FillBounds(texts);
    assert (texts + [text])[..|texts|] == texts;
  }

  /** The spots are those that next-fit packing gives the texts. */
  predicate Laid(texts: seq<Text>, spots: seq<Spot>) {
    |spots| == |texts| && forall i | 0 <= i < |texts| :: spots[i] == SpotOf(texts, i)
  }

  lemma LaidStep(texts: seq<Text>, spots: seq<Spot>, text: Text)
    requires Fitting(texts) && Laid(texts, spots)
    ensures Laid(texts + [text], spots + [SpotOf(texts + [text], |texts|)])
    ensures forall i | 0 <= i < |texts| && spots[i].cell == FillOf(texts).cells - 1 ::
              spots[i].off + Size(texts[i]) <= FillOf(texts).ptr
    ensures forall s <- spots :: s.cell < FillOf(texts).cells
  {
    forall i | 0 <= i < |texts|
      ensures SpotOf(texts + [text], i) == spots[i]
      ensures spots[i].cell < FillOf(texts).cells
      ensures spots[i].cell == FillOf(texts).cells - 1 ==> spots[i].off + Size(texts[i]) <= FillOf(texts).ptr
    {
      SpotStable(texts, [text], i);
      SpotInside(texts, i);
    }
  }

  /** The next text, put where there is room for it, keeps the packing; what the cell
      holds already lies below its place. */
  lemma LaidNext(texts: seq<Text>, spots: seq<Spot>, text: Text, f: Fill, spot: Spot)
    requires Fitting(texts) && Laid(texts, spots) && FillOf(texts) == f && Size(text) <= HEAPCELL
    requires spot == SpotFor(f, Size(text))
    ensures Fitting(texts + [text]) && Laid(texts + [text], spots + [spot])
    ensures FillOf(texts + [text]) == Grow(f, Size(text))
    ensures |spots| == |texts|
    ensures forall i | 0 <= i < |texts| && spots[i].cell == spot.cell :: spots[i].off + Size(texts[i]) <= spot.off
  {
    AddLayout(texts, text);
    LaidStep(texts, spots, text);
  }

  function TotalSize(texts: seq<Text>): nat {
    if texts == [] then 0 else TotalSize(texts[..|texts| - 1]) + Size(texts[|texts| - 1])
  }

  lemma TotalSizeAppend(texts: seq<Text>, text: Text)
    ensures TotalSize(texts + [text]) == TotalSize(texts) + Size(text)
  {
    assert (texts + [text])[..|texts|] == texts;
  }

  /** The bytes used in each cell. */
  function Used(texts: seq<Text>): (u: seq<nat>)
    ensures |u| == FillOf(texts).cells
  {
    if texts == [] then []
    else
      var u := Used(texts[..|texts| - 1]);
      var f, n := FillOf(texts[..|texts| - 1]), Size(texts[|texts| - 1]);
      if HEAPCELL - f.ptr < n then u + [n]
      else u[f.cells - 1 := u[f.cells - 1] + n]
  }

  function Sum(u: seq<nat>): nat {
    if u == [] then 0 else Sum(u[..|u| - 1]) + u[|u| - 1]
  }

  lemma {:induction false} SumUpdate(u: seq<nat>, n: nat)
    requires u != []
    ensures Sum(u[|u| - 1 := u[|u| - 1] + n]) == Sum(u) + n
  {
    var k := |u| - 1;
    assert u[k := u[k] + n][..k] == u[..k];
  }

  /** Every byte added is accounted to a cell, and any two neighbouring cells hold
      more than one cell's worth together. */
  lemma {:induction false} UsedPairs(texts: seq<Text>)
    requires Fitting(texts)
    ensures var u, f := Used(texts), FillOf(texts);
            && Sum(u) == TotalSize(texts)
            && (u != [] ==> u[|u| - 1] == f.ptr)
            && forall i | 0 <= i < |u| - 1 :: u[i] + u[i + 1] > HEAPCELL
  {
    if texts != [] {
      var before, n := texts[..|texts| - 1], Size(texts[|texts| - 1]);
      UsedPairs(before);
      FillBounds(before);
      var u, f := Used(before), FillOf(before);
      if HEAPCELL - f.ptr < n {
        assert (u + [n])[..|u|] == u;
      } else {
        SumUpdate(u, n);
      }
    }
  }

  lemma {:induction false} PairedSum(u: seq<nat>)
    requires forall i | 0 <= i < |u| - 1 :: u[i] + u[i + 1] > HEAPCELL
    ensures Sum(u) >= HEAPCELL * (|u| / 2)
    decreases |u|
  {
    if |u| >= 2 {
      var k := |u| - 2;
      var v := u[..k];
      assert u[..k + 1][..k] == v;
      forall i | 0 <= i < |v| - 1 ensures v[i] + v[i + 1] > HEAPCELL {
        assert u[i] + u[i + 1] > HEAPCELL;
      }
      PairedSum(v);
      assert Sum(u) == Sum(v) + u[k] + u[k + 1];
      assert u[k] + u[k + 1] > HEAPCELL;
    }
  }

  /** Next-fit never takes more than twice the cells the bytes need. */
  lemma SpaceBound(texts: seq<Text>)
    requires Fitting(texts)
    ensures HEAPCELL * (FillOf(texts).cells / 2) <= TotalSize(texts)
  {
    UsedPairs(texts);
    PairedSum(Used(texts));
  }

  const WORD: nat := 0x1_0000_0000

  /** Exclusive or, bit by bit. */
  function Xor(a: nat, b: nat): nat {
    if a == 0 && b == 0 then 0 else (a % 2 + b % 2) % 2 + 2 * Xor(a / 2, b / 2)
  }

  /** Characters are signed, so a byte of 128 or more extends with ones. */
  function SignExtend(c: Byte): nat {
    if c < 0x80 then c else WORD - 0x100 + c
  }

  /** One round of the string hash, on 32-bit words: h << 4 ^ h >> 28 ^ c. */
  function HashStep(h: nat, c: Byte): nat {
    Xor(Xor(h * 16 % WORD, h / 0x1000_0000), SignExtend(c))
  }

  // The round, bit by bit.

  /** Bit i is one. */
  predicate One(n: nat, i: nat) {
    if i == 0 then n % 2 == 1 else One(n / 2, i - 1)
  }

  lemma {:induction false} XorBit(a: nat, b: nat, i: nat)
    ensures One(Xor(a, b), i) <==> One(a, i) != One(b, i)
    decreases i
  {
    if a == 0 && b == 0 {
      ZeroBit(i);
    } else if i > 0 {
      XorBit(a / 2, b / 2, i - 1);
    }
  }

  lemma {:induction false} ZeroBit(i: nat)
    ensures !One(0, i)
  {
    if i > 0 {
      ZeroBit(i - 1);
    }
  }

  function Power(k: nat): (p: nat)
    ensures p >= 1
  {
    if k == 0 then 1 else 2 * Power(k - 1)
  }

  /** Below bit k the remainder has the bits of the number, and none above. */
  lemma {:induction false} LowBits(n: nat, k: nat, p: nat, i: nat)
    requires p >= 1 && p == Power(k)
    ensures One(n % p, i) <==> i < k && One(n, i)
    decreases k
  {
    if k == 0 {
      ZeroBit(i);
    } else {
      var half := Power(k - 1);
      Halves(n, half);
      var low := n / 2 % half;
      if i > 0 {
        LowBits(n / 2, k - 1, half, i - 1);
        assert (n % 2 + 2 * low) / 2 == low;
      }
    }
  }

  /** The quotient has the bits from bit k on. */
  lemma {:induction false} HighBits(n: nat, k: nat, p: nat, q: nat, i: nat)
    requires p >= 1 && p == Power(k) && q == n / p
    ensures One(q, i) <==> One(n, i + k)
    decreases k
  {
    if k > 0 {
      Halves(n, Power(k - 1));
      HighBits(n / 2, k - 1, Power(k - 1), q, i);
    }
  }

  lemma Halves(n: nat, p: nat)
    requires p >= 1
    ensures n % (2 * p) == n % 2 + 2 * (n / 2 % p) && n / (2 * p) == n / 2 / p
  {
    var q, r := n / 2 / p, n / 2 % p;
    assert n / 2 == p * q + r;
    Unique(n, 2 * p, q, n % 2 + 2 * r);
  }

  lemma Unique(n: nat, d: nat, q: nat, r: nat)
    requires n == d * q + r && r < d
    ensures n / d == q && n % d == r
  {
    var q', r' := n / d, n % d;
    assert n == d * q' + r';
    if q' < q {
      Gap(d, q' + 1, q);
    } else if q' > q {
      Gap(d, q + 1, q');
    }
  }

  lemma Gap(d: nat, a: nat, b: nat)
    requires a <= b
    ensures d * a <= d * b && d * (a - 1) == d * a - d
  {
  }

  /** Doubling moves every bit up by one. */
  lemma DoubledBit(n: nat, i: nat)
    ensures One(2 * n, i) <==> i > 0 && One(n, i - 1)
  {
  }

  lemma ShiftedBit(n: nat, i: nat)
    ensures One(n * 16, i) <==> i >= 4 && One(n, i - 4)
  {
    var a, b, c := 2 * n, 4 * n, 8 * n;
    DoubledBit(c, i);
    assert 2 * c == n * 16;
    if i > 0 {
      DoubledBit(b, i - 1);
    }
    if i > 1 {
      DoubledBit(a, i - 2);
    }
    if i > 2 {
      DoubledBit(n, i - 3);
    }
  }

  lemma XorBits(a: nat, b: nat, c: nat, d: nat, e: nat, i: nat)
    requires d == Xor(a, b) && e == Xor(d, c)
    ensures One(e, i) <==> (One(a, i) != One(b, i)) != One(c, i)
  {
    XorBit(a, b, i);
    XorBit(d, c, i);
  }

  /** A round of the hash, said of its bits: those of the hash move up by four and the top
      four come in below, and each is flipped where the character has a one, whose bit 7
      is repeated above it. */
  lemma HashStepBits(h: nat, c: Byte, i: nat)
    requires h < WORD && i < 32
    ensures One(HashStep(h, c), i) <==> One(h, if i < 4 then i + 28 else i - 4) != One(c, if i < 7 then i else 7)
  {
    var a, b, x := h * 16 % WORD, h / 0x1000_0000, SignExtend(c);
    HighPart(h, i);
    LowPart(h, i);
    ExtendedBits(c, i);
    XorBits(a, b, x, Xor(a, b), HashStep(h, c), i);
  }

  lemma Powers()
    ensures Power(7) == 0x80 && Power(8) == 0x100 && Power(24) == 0x100_0000
    ensures Power(28) == 0x1000_0000 && Power(32) == WORD
  {
    assert Power(4) == 16;
    assert Power(7) == 0x80;
    assert Power(8) == 0x100;
    assert Power(12) == 0x1000;
    assert Power(16) == 0x1_0000;
    assert Power(20) == 0x10_0000;
    assert Power(24) == 0x100_0000;
    assert Power(28) == 0x1000_0000;
  }

  lemma HighPart(h: nat, i: nat)
    requires i < 32
    ensures One(h * 16 % WORD, i) <==> i >= 4 && One(h, i - 4)
  {
    Powers();
    LowBits(h * 16, 32, WORD, i);
    ShiftedBit(h, i);
  }

  lemma LowPart(h: nat, i: nat)
    requires h < WORD && i < 32
    ensures One(h / 0x1000_0000, i) <==> i < 4 && One(h, i + 28)
  {
    Powers();
    HighBits(h, 28, 0x1000_0000, h / 0x1000_0000, i);
    if i >= 4 {
      LowBits(h, 32, WORD, i + 28);
    }
  }

  lemma ExtendedBits(c: Byte, i: nat)
    requires i < 32
    ensures One(SignExtend(c), i) <==> One(c, if i < 7 then i else 7)
  {
    TopBit(c);
    if i < 8 {
      ByteBits(SignExtend(c), c, i);
    } else if c >= 0x80 {
      var n := SignExtend(c);
      assert n / 0x100 == 0x100_0000 - 1;
      AboveByte(n, i);
    } else {
      AboveByte(c, i);
    }
  }

  lemma ByteBits(n: nat, c: Byte, i: nat)
    requires i < 8 && n % 0x100 == c
    ensures One(n, i) <==> One(c, i)
  {
    Powers();
    LowBits(n, 8, 0x100, i);
  }

  lemma AboveByte(n: nat, i: nat)
    requires 8 <= i < 32
    ensures n / 0x100 == 0 ==> !One(n, i)
    ensures n / 0x100 == 0x100_0000 - 1 ==> One(n, i)
  {
    Powers();
    HighBits(n, 8, 0x100, n / 0x100, i - 8);
    ZeroBit(i - 8);
    OnesBit(24, i - 8);
  }

  lemma TopBit(c: Byte)
    ensures One(c, 7) <==> c >= 0x80
  {
    Powers();
    HighBits(c, 7, 0x80, c / 0x80, 0);
  }

  lemma {:induction false} OnesBit(k: nat, i: nat)
    requires i < k
    ensures One(Power(k) - 1, i)
  {
    if i > 0 {
      OnesBit(k - 1, i - 1);
    }
  }

  function HashFrom(h: nat, text: seq<Byte>): nat
    decreases text
  {
    if text == [] then h else HashFrom(HashStep(h, text[0]), text[1..])
  }

  function Bucket(text: Text): (b: nat)
    ensures b < HASH_SIZE
  {
    HashFrom(0, text) % HASH_SIZE
  }

  datatype Slot = Empty | Holds(index: nat)

  /** The interning heap: the strings passed on to the heap below, the table of
      indices into them, and the two counters. */
  datatype Lex = Lex(stored: seq<Text>, table: seq<Slot>, hits: nat, adds: nat)

  ghost predicate Wf(l: Lex) {
    && |l.table| == HASH_SIZE
    && |l.stored| == l.adds
    && Fitting(l.stored)
    && forall b | 0 <= b < HASH_SIZE && l.table[b].Holds? ::
         l.table[b].index < |l.stored| && Bucket(l.stored[l.table[b].index]) == b
  }

  function NewLex(): (l: Lex)
    ensures |l.table| == HASH_SIZE && forall b | 0 <= b < HASH_SIZE :: l.table[b].Empty?
  {
    Lex([], seq(HASH_SIZE, _ => Empty), 0, 0)
  }

  predicate Hit(l: Lex, text: Text)
    requires |l.table| == HASH_SIZE
  {
    var slot := l.table[Bucket(text)];
    slot.Holds? && slot.index < |l.stored| && l.stored[slot.index] == text
  }

  /** One addition: the new state and the index of the string returned. */
  function Intern(l: Lex, text: Text): (Lex, nat)
    requires |l.table| == HASH_SIZE
  {
    if Hit(l, text) then (l.(hits := l.hits + 1), l.table[Bucket(text)].index)
    else
      var i := |l.stored|;
      (Lex(l.stored + [text], l.table[Bucket(text) := Holds(i)], l.hits, l.adds + 1), i)
  }

  /** An addition returns a string with the text asked for, keeps every earlier one,
      and counts itself once. */
  lemma InternStep(l: Lex, text: Text)
    requires Wf(l) && Size(text) <= HEAPCELL
    ensures var (l', i) := Intern(l, text);
            && Wf(l')
            && i < |l'.stored| && l'.stored[i] == text
            && l.stored <= l'.stored
            && l'.hits + l'.adds == l.hits + l.adds + 1
            && Hit(l', text)
            && TotalSize(l'.stored) <= TotalSize(l.stored) + Size(text)
  {
    TotalSizeAppend(l.stored, text);
    var (l', i) := Intern(l, text);
    forall b | 0 <= b < HASH_SIZE && l'.table[b].Holds?
      ensures l'.table[b].index < |l'.stored| && Bucket(l'.stored[l'.table[b].index]) == b
    {
      assert b != Bucket(text) ==> l'.table[b] == l.table[b];
    }
  }

  /** A string that is found only counts. */
  lemma HitStep(l: Lex, text: Text)
    requires Wf(l) && Hit(l, text)
    ensures Wf(l.(hits := l.hits + 1))
    ensures Intern(l, text) == (l.(hits := l.hits + 1), l.table[Bucket(text)].index)
  {
  }

  /** A whole run of additions: the final state and the indices returned. */
  datatype History = History(lex: Lex, ids: seq<nat>)

  function InternAll(texts: seq<Text>): (h: History)
    ensures |h.lex.table| == HASH_SIZE
  {
    if texts == [] then History(NewLex(), [])
    else
      var before := InternAll(texts[..|texts| - 1]);
      var step := Intern(before.lex, texts[|texts| - 1]);
      History(step.0, before.ids + [step.1])
  }

  /** Every index returned still names the text that was asked for. */
  ghost predicate Faithful(texts: seq<Text>, h: History) {
    && |h.ids| == |texts|
    && forall k | 0 <= k < |texts| :: h.ids[k] < |h.lex.stored| && h.lex.stored[h.ids[k]] == texts[k]
  }

  lemma FaithfulStep(texts: seq<Text>, h: History, text: Text, h': History)
    requires Faithful(texts, h) && h.lex.stored <= h'.lex.stored
    requires |h'.ids| == |texts| + 1 && h'.ids[..|texts|] == h.ids
    requires h'.ids[|texts|] < |h'.lex.stored| && h'.lex.stored[h'.ids[|texts|]] == text
    ensures Faithful(texts + [text], h')
  {
    forall k | 0 <= k < |texts| ensures h'.ids[k] == h.ids[k] {
      assert h'.ids[..|texts|][k] == h.ids[k];
    }
  }

  /** After any run the texts returned are those asked for, hits and adds count the
      calls, and the strings stored take no more bytes than without the table. */
  lemma {:induction false} InternRun(texts: seq<Text>)
    requires Fitting(texts)
    ensures var h := InternAll(texts);
            && Wf(h.lex)
            && Faithful(texts, h)
            && h.lex.hits + h.lex.adds == |texts|
            && TotalSize(h.lex.stored) <= TotalSize(texts)
  {
    if texts != [] {
      var before, text := texts[..|texts| - 1], texts[|texts| - 1];
      InternRun(before);
      assert before + [text] == texts;
      TotalSizeAppend(before, text);
      InternNext(before, InternAll(before), text);
    }
  }

  /** One more addition to a run. */
  lemma InternNext(texts: seq<Text>, h: History, text: Text)
    requires Wf(h.lex) && Faithful(texts, h) && Size(text) <= HEAPCELL
    ensures var step := Intern(h.lex, text); var h' := History(step.0, h.ids + [step.1]);
            && Wf(h'.lex)
            && Faithful(texts + [text], h')
            && h'.lex.hits + h'.lex.adds == h.lex.hits + h.lex.adds + 1
            && TotalSize(h'.lex.stored) <= TotalSize(h.lex.stored) + Size(text)
  {
    InternStep(h.lex, text);
    var step := Intern(h.lex, text);
    FaithfulStep(texts, h, text, History(step.0, h.ids + [step.1]));
  }

  /** The text was added, and since then no other text of its bucket. */
  predicate Remembered(texts: seq<Text>, text: Text) {
    texts != []
    && var last := texts[|texts| - 1];
       (last == text || (Bucket(last) != Bucket(text) && Remembered(texts[..|texts| - 1], text)))
  }

  /** After any run, an addition hits, and stores nothing, exactly if its text is remembered. */
  lemma {:induction false} HitExact(texts: seq<Text>, text: Text)
    requires Fitting(texts) && Size(text) <= HEAPCELL
    ensures Hit(InternAll(texts).lex, text) <==> Remembered(texts, text)
    ensures var l, l' := InternAll(texts).lex, InternAll(texts + [text]).lex;
            if Remembered(texts, text) then l'.hits == l.hits + 1 && l'.stored == l.stored
            else l'.hits == l.hits && l'.stored == l.stored + [text]
  {
    if texts != [] {
      var before, last := texts[..|texts| - 1], texts[|texts| - 1];
      InternRun(before);
      HitExact(before, text);
      NextHits(InternAll(before).lex, last, text);
    }
    assert (texts + [text])[..|texts|] == texts;
  }

  lemma NextHits(l: Lex, last: Text, text: Text)
    requires Wf(l) && Size(last) <= HEAPCELL
    ensures Hit(Intern(l, last).0, text) <==> last == text || (Bucket(last) != Bucket(text) && Hit(l, text))
  {
    InternStep(l, last);
    var l' := Intern(l, last).0;
    if Bucket(last) != Bucket(text) {
      assert l'.table[Bucket(text)] == l.table[Bucket(text)];
    }
  }
}
