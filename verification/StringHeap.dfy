/** The permanent string heap and the interning heap on top of it (StringHeap.cc).
    The ghost fields record what has been added; the invariants say that the bytes in
    the cells still spell it. */
module StringHeap {
  import opened StringLayout

  /** A `const char*` into a cell. */
  datatype Ptr = Ptr(cell: array<Byte>, off: nat)

  /** The pointer reads as the text, up to its terminating nul. */
  ghost predicate Reads(p: Ptr, text: Text)
    reads p.cell
  {
    && p.off + |text| < p.cell.Length
    && p.cell[p.off..p.off + |text|] == text
    && p.cell[p.off + |text|] == 0
  }

  /** `strcmp(p, text) == 0`, comparing up to the first difference or nul. */
  method SameText(p: Ptr, text: Text, ghost stored: Text) returns (same: bool)
    requires Reads(p, stored)
    ensures same <==> stored == text
  {
    var k := 0;
    while k < |text| && p.cell[p.off + k] == text[k]
      invariant 0 <= k <= |text| && k <= |stored|
      invariant stored[..k] == text[..k]
      decreases |text| - k
    {
      assert text[k] in text;
      assert p.cell[p.off..p.off + |stored|][k] == stored[k];
      k := k + 1;
    }
    if k < |stored| {
      assert p.cell[p.off..p.off + |stored|][k] == stored[k];
    }
    same := k == |text| && p.cell[p.off + k] == 0;
  }

  /** The hash loop over the characters of a string. */
  method HashString(text: Text) returns (h: nat)
    ensures h == HashFrom(0, text)
  {
    h := 0;
    assert text[0..] == text;
    for k := 0 to |text|
      invariant HashFrom(h, text[k..]) == HashFrom(0, text)
    {
      assert text[k..][1..] == text[k + 1..];
      h := HashStep(h, text[k]);
    }
  }

  /** What lies before an offset is the same if the parts before the offset are. */
  lemma PrefixSlice(a: seq<Byte>, b: seq<Byte>, off: nat, lo: nat, n: nat)
    requires lo + n <= off <= |a| && off <= |b|
    requires a[..off] == b[..off]
    ensures a[lo..lo + n] == b[lo..lo + n]
    ensures forall k | lo <= k < lo + n :: a[k] == b[k]
  {
    assert forall k | 0 <= k < off :: a[..off][k] == a[k] && b[..off][k] == b[k];
  }

  class StringHeap {
    var cell_base_: array?<Byte>
    var cell_ptr_: nat
    var cell_count_: nat

    ghost var cells: seq<array<Byte>>   // every cell ever allocated, oldest first
    ghost var texts: seq<Text>          // every text ever added, oldest first
    ghost var spots: seq<Spot>          // and the place it was given

    /** The pointer that was returned for the i-th text. */
    ghost function At(i: nat): Ptr
      reads this
      requires i < |spots| && spots[i].cell < |cells|
    {
      Ptr(cells[spots[i].cell], spots[i].off)
    }

    /** The cells are separate, and the current one is the last. */
    ghost predicate Shaped()
      reads this, cells
    {
      && |cells| == cell_count_
      && (cells != [] ==> cell_base_ == cells[|cells| - 1])
      && (forall c <- cells :: c.Length == HEAPCELL)
      && (forall i, j | 0 <= i < j < |cells| :: cells[i] != cells[j])
    }

    /** Every text ever added can still be read at its place. */
    ghost predicate Stored()
      reads this, cells
    {
      && |spots| == |texts|
      && forall i | 0 <= i < |spots| :: spots[i].cell < |cells| && Reads(At(i), texts[i])
    }

    /** The places are those of next-fit packing. */
    ghost predicate Packed()
      reads this
    {
      && Fitting(texts)
      && FillOf(texts) == Fill(cell_count_, cell_ptr_)
      && Laid(texts, spots)
    }

    ghost predicate Valid()
      reads this, cells
    {
      Shaped() && Stored() && Packed()
    }

    constructor ()
      ensures Valid() && texts == [] && cells == []
    {
      cell_base_, cell_ptr_, cell_count_ := null, HEAPCELL, 0;
      cells, texts, spots := [], [], [];
    }

    /** Add a text and return a pointer to a permanent copy of it. */
    method Add(text: Text) returns (res: Ptr)
      requires Valid() && Size(text) <= HEAPCELL
      modifies this, cells
      ensures Valid()
      ensures texts == old(texts) + [text] && old(spots) <= spots
      ensures old(cells) <= cells && fresh(cells[|old(cells)|..])
      ensures res == At(|old(texts)|)
    {
      ghost var f := Fill(cell_count_, cell_ptr_);
      LaidNext(texts, spots, text, f, SpotFor(f, |text| + 1));
      AddLayout(texts, text);
      res := Append(text);
    }

    /** Room is made, and the text is written there. */
    method Append(text: Text) returns (res: Ptr)
      requires Shaped() && Stored() && Size(text) <= HEAPCELL && cell_ptr_ <= HEAPCELL
      requires cell_count_ == 0 ==> cell_ptr_ == HEAPCELL
      requires var spot := SpotFor(Fill(cell_count_, cell_ptr_), Size(text));
               forall i | 0 <= i < |texts| && spots[i].cell == spot.cell :: spots[i].off + Size(texts[i]) <= spot.off
      modifies this, cells
      ensures Shaped() && Stored()
      ensures texts == old(texts) + [text]
      ensures spots == old(spots) + [SpotFor(old(Fill(cell_count_, cell_ptr_)), Size(text))]
      ensures Fill(cell_count_, cell_ptr_) == Grow(old(Fill(cell_count_, cell_ptr_)), Size(text))
      ensures old(cells) <= cells && fresh(cells[|old(cells)|..])
      ensures res == At(|old(texts)|)
    {
      MakeRoom(|text| + 1);
      res := Ptr(cell_base_, cell_ptr_);
      assert res.cell == cells[|cells| - 1];
      Place(text, res);
    }

    /** Start a new cell unless n more bytes fit into the current one. */
    method MakeRoom(n: nat)
      requires Shaped() && Stored() && 0 < n <= HEAPCELL && cell_ptr_ <= HEAPCELL
      requires cell_count_ == 0 ==> cell_ptr_ == HEAPCELL
      modifies this
      ensures Shaped() && Stored()
      ensures texts == old(texts) && spots == old(spots)
      ensures old(cells) <= cells && fresh(cells[|old(cells)|..])
      ensures cells != [] && (cells[|cells| - 1] in old(cells) || fresh(cells[|cells| - 1]))
      ensures var f := old(Fill(cell_count_, cell_ptr_));
              Fill(cell_count_, cell_ptr_ + n) == Grow(f, n) && SpotFor(f, n) == Spot(cell_count_ - 1, cell_ptr_)
    {
      var rem := HEAPCELL - cell_ptr_;
      if rem < n {
        NewCell();
      }
    }

    /** The cells before the new one keep their texts. */
    method NewCell()
      requires Shaped() && Stored()
      modifies this
      ensures Shaped() && Stored()
      ensures texts == old(texts) && spots == old(spots)
      ensures cell_base_ != null && fresh(cell_base_) && cells == old(cells) + [cell_base_]
      ensures cell_ptr_ == 0 && cell_count_ == old(cell_count_) + 1
    {
      ghost var before := cells;
      var cell := new Byte[HEAPCELL];
      cells := cells + [cell];
      cell_base_, cell_ptr_, cell_count_ := cell, 0, cell_count_ + 1;
      forall i | 0 <= i < |texts| ensures Reads(At(i), texts[i]) {
        assert old(Reads(At(i), texts[i]));
        assert cells[spots[i].cell] == before[spots[i].cell];
      }
    }

    /** Write the text behind everything stored so far. */
    method Place(text: Text, res: Ptr)
      requires Shaped() && Stored() && cells != [] && res == Ptr(cell_base_, cell_ptr_)
      requires cell_ptr_ + |text| < HEAPCELL
      requires forall i | 0 <= i < |texts| && spots[i].cell == |cells| - 1 ::
                 spots[i].off + Size(texts[i]) <= cell_ptr_
      modifies this`texts, this`spots, this`cell_ptr_, res.cell
      ensures Shaped() && Stored()
      ensures texts == old(texts) + [text] && spots == old(spots) + [Spot(cell_count_ - 1, res.off)]
      ensures cell_ptr_ == old(cell_ptr_) + Size(text)
    {
      ghost var n := |texts|;
      CopyIn(text, res);
      forall i | 0 <= i < n
        ensures Reads(At(i), texts[i])
      {
        assert old(Reads(At(i), texts[i]));
        if At(i).cell == res.cell {
          PrefixSlice(res.cell[..], old(res.cell[..]), res.off, spots[i].off, Size(texts[i]));
        }
      }
      texts := texts + [text];
      spots := spots + [Spot(cell_count_ - 1, cell_ptr_)];
      cell_ptr_ := cell_ptr_ + |text| + 1;
    }

    /** Copy the text and its terminator to a place in the current cell. */
    method CopyIn(text: Text, to: Ptr)
      requires to.off + |text| < to.cell.Length
      modifies to.cell
      ensures Reads(to, text)
      ensures to.cell[..to.off] == old(to.cell[..to.off])
    {
      for k := 0 to |text|
        invariant to.cell[to.off..to.off + k] == text[..k]
        invariant to.cell[..to.off] == old(to.cell[..to.off])
      {
        to.cell[to.off + k] := text[k];
        assert to.cell[to.off..to.off + k + 1] == to.cell[to.off..to.off + k] + [text[k]];
      }
      to.cell[to.off + |text|] := 0;
      assert text[..|text|] == text;
    }
  }

  datatype Entry = Null | At(ptr: Ptr)

  /** The interning heap: a direct-mapped table of pointers in front of a string heap. */
  class StringHeapLex {
    const heap: StringHeap
    const hash_table_: array<Entry>
    var hit_count_: nat
    var add_count_: nat

    ghost var slots: seq<Slot>   // which text each table entry points to

    ghost function State(): Lex
      reads this, heap
    {
      Lex(heap.texts, slots, hit_count_, add_count_)
    }

    /** A table entry is the pointer its slot stands for. */
    ghost predicate Points(entry: Entry, slot: Slot)
      reads heap
    {
      match slot
      case Empty => entry.Null?
      case Holds(i) =>
        i < |heap.spots| && heap.spots[i].cell < |heap.cells| && entry == Entry.At(heap.At(i))
    }

    ghost predicate Linked()
      reads this, heap, hash_table_
    {
      && hash_table_.Length == HASH_SIZE == |slots|
      && forall b | 0 <= b < HASH_SIZE :: Points(hash_table_[b], slots[b])
    }

    /** Every entry in use is the pointer of a stored text that hashes to it. */
    ghost predicate Valid()
      reads this, heap, heap.cells, hash_table_
    {
      heap.Valid() && Linked() && Wf(State())
    }

    constructor ()
      ensures Valid() && State() == NewLex()
      ensures fresh(heap) && fresh(hash_table_)
    {
      heap := new StringHeap();
      hash_table_ := new Entry[HASH_SIZE](_ => Null);
      hit_count_, add_count_ := 0, 0;
      slots := seq(HASH_SIZE, _ => Empty);
    }

    /** Return the pointer already in the table if it reads as the text; otherwise add the
        text to the heap and let the table point to the new copy. */
    method Add(text: Text) returns (res: Ptr)
      requires Valid() && Size(text) <= HEAPCELL
      modifies this, heap, heap.cells, hash_table_
      ensures Valid()
      ensures old(heap.cells) <= heap.cells && fresh(heap.cells[|old(heap.cells)|..])
      ensures old(heap.spots) <= heap.spots
      ensures var (state, i) := Intern(old(State()), text); State() == state && Points(Entry.At(res), Holds(i))
      ensures Reads(res, text)
    {
      var hash_value := HashString(text);
      res := AddAt(text, hash_value % HASH_SIZE);
    }

    /** Look at the table entry, and use it or replace it. */
    method AddAt(text: Text, hash_value: nat) returns (res: Ptr)
      requires Valid() && Size(text) <= HEAPCELL && hash_value == Bucket(text)
      modifies this, heap, heap.cells, hash_table_
      ensures Valid()
      ensures old(heap.cells) <= heap.cells && fresh(heap.cells[|old(heap.cells)|..])
      ensures old(heap.spots) <= heap.spots
      ensures var (state, i) := Intern(old(State()), text); State() == state && Points(Entry.At(res), Holds(i))
      ensures Reads(res, text)
    {
      var hit := Probe(text, hash_value);
      if hit {
        res := Found(text, hash_value);
      } else {
        res := Miss(text, hash_value);
      }
    }

    /** The text is in the table. */
    method Found(text: Text, hash_value: nat) returns (res: Ptr)
      requires Valid() && Size(text) <= HEAPCELL && hash_value == Bucket(text) && Hit(State(), text)
      requires hash_table_[hash_value].At? && Reads(hash_table_[hash_value].ptr, text)
      modifies this`hit_count_
      ensures Valid()
      ensures var (state, i) := Intern(old(State()), text); State() == state && Points(Entry.At(res), Holds(i))
      ensures Reads(res, text)
    {
      ghost var before := State();
      assert Points(hash_table_[hash_value], slots[hash_value]);
      hit_count_ := hit_count_ + 1;
      res := hash_table_[hash_value].ptr;
      HitStep(before, text);
    }

    /** The text is not in the table: it is stored, and the table points to the copy. */
    method Miss(text: Text, hash_value: nat) returns (res: Ptr)
      requires Valid() && Size(text) <= HEAPCELL && hash_value == Bucket(text) && !Hit(State(), text)
      modifies this, heap, heap.cells, hash_table_
      ensures Valid()
      ensures old(heap.cells) <= heap.cells && fresh(heap.cells[|old(heap.cells)|..])
      ensures old(heap.spots) <= heap.spots
      ensures var (state, i) := Intern(old(State()), text); State() == state && Points(Entry.At(res), Holds(i))
      ensures Reads(res, text)
    {
      ghost var before := State();
      res := Store(text, hash_value);
      InternStep(before, text);
    }

    /** Does the table entry read as the text? */
    method Probe(text: Text, hash_value: nat) returns (hit: bool)
      requires heap.Valid() && Linked() && Wf(State()) && hash_value == Bucket(text)
      ensures hit <==> Hit(State(), text)
      ensures hit ==> hash_table_[hash_value].At? && Reads(hash_table_[hash_value].ptr, text)
    {
      var entry := hash_table_[hash_value];
      assert Points(entry, slots[hash_value]);
      hit := false;
      if entry.At? {
        ghost var i := slots[hash_value].index;
        hit := SameText(entry.ptr, text, heap.texts[i]);
      }
    }

    /** Store the text and take over a table entry. */
    method Store(text: Text, hash_value: nat) returns (res: Ptr)
      requires heap.Valid() && Linked() && Size(text) <= HEAPCELL && hash_value < HASH_SIZE
      modifies this, heap, heap.cells, hash_table_
      ensures heap.Valid() && Linked()
      ensures old(heap.cells) <= heap.cells && fresh(heap.cells[|old(heap.cells)|..])
      ensures old(heap.spots) <= heap.spots
      ensures heap.texts == old(heap.texts) + [text]
      ensures slots == old(slots)[hash_value := Holds(|old(heap.texts)|)]
      ensures add_count_ == old(add_count_) + 1 && hit_count_ == old(hit_count_)
      ensures Points(Entry.At(res), Holds(|old(heap.texts)|)) && Reads(res, text)
    {
      res := heap.Add(text);
      assert Reads(res, heap.texts[|old(heap.texts)|]);
      StillLinked();
      SetEntry(hash_value, res, |heap.texts| - 1);
    }

    /** Pointers stay what they were while the heap grows. */
    twostate lemma StillLinked()
      requires old(Linked())
      requires hash_table_[..] == old(hash_table_[..]) && slots == old(slots)
      requires old(heap.cells) <= heap.cells && old(heap.spots) <= heap.spots
      ensures Linked()
    {
      forall b | 0 <= b < HASH_SIZE ensures Points(hash_table_[b], slots[b]) {
        assert hash_table_[b] == hash_table_[..][b];
        assert old(Points(hash_table_[b], slots[b]));
      }
    }

    method SetEntry(hash_value: nat, res: Ptr, ghost i: nat)
      requires Linked() && hash_value < HASH_SIZE && Points(Entry.At(res), Holds(i))
      modifies this`slots, this`add_count_, hash_table_
      ensures Linked()
      ensures slots == old(slots)[hash_value := Holds(i)] && add_count_ == old(add_count_) + 1
    {
      hash_table_[hash_value] := Entry.At(res);
      slots := slots[hash_value := Holds(i)];
      add_count_ := add_count_ + 1;
    }
  }
}
