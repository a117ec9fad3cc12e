/** Properties of the object table model: layout, attribute flags and property lists. */
module ObjectTableProperties {
  import opened Wrappers
  import opened Words
  import opened MemoryModel
  import opened ObjectTableModel

  // ---------------------------------------------------------------- bytes and entries

  /** `count` bytes from `a` are the slice of the image, or the first address out of range. */
  lemma {:induction false} ReadBytesSlice(mem: seq<Byte>, a: int, count: nat)
    ensures ReadBytes(mem, a, count) ==
      if count == 0 then Ok([])
      else if a < 0 then Err(MajorAccessViolation(a))
      else if a + count <= |mem| then Ok(mem[a..a + count])
      else Err(MajorAccessViolation(if a < |mem| then |mem| else a))
    decreases count
  {
    if count > 0 && 0 <= a < |mem| {
      ReadBytesSlice(mem, a + 1, count - 1);
      if a + count <= |mem| {
        assert [mem[a]] + mem[a + 1..a + count] == mem[a..a + count];
      }
    }
  }

  /**
   * Object `index` lives at the table address plus 32 or 64 default words plus
   * `index - 1` entries of 9 or 14 bytes; the entry reads when all of it lies
   * in the image, and holds the bytes found there.
   */
  lemma ObjectEntryLayout(mem: seq<Byte>, version: nat, tableAddress: int, index: int)
    ensures var a := tableAddress + 2 * (if version <= 3 then 32 else 64) + (index - 1) * (if version <= 3 then 9 else 14);
            var size := if version <= 3 then 9 else 14;
            var r := ObjectEntry(mem, version, tableAddress, index);
            EntryAddress(version, tableAddress, index) == a && EntrySize(version) == size &&
            (r.Ok? <==> 0 <= a && a + size <= |mem|) &&
            (r.Ok? ==>
              r.value.attributesAddress == a &&
              r.value.attributes == mem[a..a + (if version <= 3 then 4 else 6)] &&
              (version <= 3 ==> r.value.parent == mem[a + 4] && r.value.sibling == mem[a + 5] && r.value.child == mem[a + 6]) &&
              (version > 3 ==> r.value.parent == WordOf(mem[a + 6], mem[a + 7]) &&
                               r.value.sibling == WordOf(mem[a + 8], mem[a + 9]) &&
                               r.value.child == WordOf(mem[a + 10], mem[a + 11])) &&
              r.value.propertiesAddress == WordOf(mem[a + size - 2], mem[a + size - 1]))
  {
    var a := EntryAddress(version, tableAddress, index);
    ReadBytesSlice(mem, a, AttributesSize(version));
  }

  /** What an entry that reads says about its attribute bytes. */
  lemma EntryAttributes(mem: seq<Byte>, version: nat, tableAddress: int, index: int)
    requires ObjectEntry(mem, version, tableAddress, index).Ok?
    ensures var a := EntryAddress(version, tableAddress, index);
            var entry := ObjectEntry(mem, version, tableAddress, index).value;
            0 <= a && a + EntrySize(version) <= |mem| &&
            entry.attributesAddress == a && entry.attributes == mem[a..a + AttributesSize(version)]
  {
    ReadBytesSlice(mem, EntryAddress(version, tableAddress, index), AttributesSize(version));
  }

  // ---------------------------------------------------------------- attributes

  lemma AttributeExamples()
    ensures AttributeByteBit(7) == (0, 0)
    ensures AttributeByteBit(17) == (2, 6)
  {
  }

  /**
   * `object_has_attribute?` tests bit `7 - n % 8` of byte `n / 8` of the
   * entry's attributes, and fails for attributes past the 32 or 48 flags.
   */
  lemma HasAttributeReads(mem: seq<Byte>, version: nat, tableAddress: int, index: int, n: nat)
    requires ObjectEntry(mem, version, tableAddress, index).Ok?
    ensures var a := EntryAddress(version, tableAddress, index);
            HasAttribute(mem, version, tableAddress, index, n) ==
              if n < (if version <= 3 then 32 else 48) then Ok(BitSet(mem[a + n / 8], 7 - n % 8))
              else Err(NoSuchAttribute(n))
  {
    ObjectEntryLayout(mem, version, tableAddress, index);
  }

  /** A successful set or clear rewrites exactly one attribute byte of the entry. */
  lemma ChangedEntry(mem: seq<Byte>, version: nat, tableAddress: int, index: int, n: nat, raise: bool)
    returns (a: int)
    requires ChangeAttribute(mem, version, tableAddress, index, n, raise).Ok?
    ensures a == EntryAddress(version, tableAddress, index) && n / 8 < AttributesSize(version)
    ensures 0 <= a && a + EntrySize(version) <= |mem|
    ensures ChangeAttribute(mem, version, tableAddress, index, n, raise).value ==
            mem[a + n / 8 := Changed(mem[a + n / 8], 7 - n % 8, raise)]
  {
    var entry := ChangeThroughEntry(mem, version, tableAddress, index, n, raise);
    ChangeEntryEffect(mem, entry, n, raise);
    EntryAttributes(mem, version, tableAddress, index);
    a := EntryAddress(version, tableAddress, index);
  }

  lemma ChangeThroughEntry(mem: seq<Byte>, version: nat, tableAddress: int, index: int, n: nat, raise: bool)
    returns (entry: Entry)
    requires ChangeAttribute(mem, version, tableAddress, index, n, raise).Ok?
    ensures ObjectEntry(mem, version, tableAddress, index) == Ok(entry)
    ensures ChangeAttribute(mem, version, tableAddress, index, n, raise) == ChangeEntryAttribute(mem, entry, n, raise)
  {
    entry := ObjectEntry(mem, version, tableAddress, index).value;
  }

  lemma ChangeEntryEffect(mem: seq<Byte>, entry: Entry, n: nat, raise: bool)
    requires ChangeEntryAttribute(mem, entry, n, raise).Ok?
    ensures n / 8 < |entry.attributes|
    ensures ChangeEntryAttribute(mem, entry, n, raise).value ==
            mem[entry.attributesAddress + n / 8 := Changed(entry.attributes[n / 8], 7 - n % 8, raise)]
  {
    var b := Changed(entry.attributes[n / 8], 7 - n % 8, raise);
    assert Mask8(b) == b;
  }

  /** After a set or clear the entry reads back with only the changed attribute byte different. */
  lemma ChangedEntryRead(mem: seq<Byte>, version: nat, tableAddress: int, index: int, n: nat, raise: bool)
    requires ChangeAttribute(mem, version, tableAddress, index, n, raise).Ok?
    ensures var entry := ObjectEntry(mem, version, tableAddress, index).value;
            var after := ChangeAttribute(mem, version, tableAddress, index, n, raise).value;
            n / 8 < |entry.attributes| &&
            ObjectEntry(after, version, tableAddress, index) ==
              Ok(entry.(attributes := entry.attributes[n / 8 := Changed(entry.attributes[n / 8], 7 - n % 8, raise)]))
  {
    var a := ChangedEntry(mem, version, tableAddress, index, n, raise);
    var after := mem[a + n / 8 := Changed(mem[a + n / 8], 7 - n % 8, raise)];
    ObjectEntryLayout(mem, version, tableAddress, index);
    ObjectEntryLayout(after, version, tableAddress, index);
    var size := AttributesSize(version);
    assert after[a..a + size] == mem[a..a + size][n / 8 := Changed(mem[a + n / 8], 7 - n % 8, raise)];
  }

  lemma ChangedBits(b: Byte, k: nat, j: nat, raise: bool)
    requires k < 8 && j < 8
    ensures BitSet(Changed(b, k, raise), j) == if j == k then raise else BitSet(b, j)
  {
    if raise {
      WithBitSets(b, k, j);
    } else {
      WithoutBitClears(b, k, j);
    }
  }

  lemma ChangedByteBits(b: Byte, k: nat, raise: bool)
    requires k < 8
    ensures forall j :: 0 <= j < 8 ==> BitSet(Changed(b, k, raise), j) == if j == k then raise else BitSet(b, j)
  {
    forall j | 0 <= j < 8
      ensures BitSet(Changed(b, k, raise), j) == if j == k then raise else BitSet(b, j)
    {
      ChangedBits(b, k, j, raise);
    }
  }

  /** After a set or clear, attribute `m` of the same object reads as before, except `n` itself. */
  lemma ChangeAttributeEffect(mem: seq<Byte>, version: nat, tableAddress: int, index: int, n: nat, raise: bool, m: nat)
    requires ChangeAttribute(mem, version, tableAddress, index, n, raise).Ok?
    ensures var after := ChangeAttribute(mem, version, tableAddress, index, n, raise).value;
            HasAttribute(after, version, tableAddress, index, m) ==
              if m == n then Ok(raise) else HasAttribute(mem, version, tableAddress, index, m)
  {
    var entry := ObjectEntry(mem, version, tableAddress, index).value;
    ChangedEntryRead(mem, version, tableAddress, index, n, raise);
    if m / 8 < |entry.attributes| && m / 8 == n / 8 {
      ChangedBits(entry.attributes[n / 8], 7 - n % 8, 7 - m % 8, raise);
    }
  }

  lemma SetThenHas(mem: seq<Byte>, version: nat, tableAddress: int, index: int, n: nat)
    requires SetAttribute(mem, version, tableAddress, index, n).Ok?
    ensures HasAttribute(SetAttribute(mem, version, tableAddress, index, n).value, version, tableAddress, index, n) == Ok(true)
  {
    ChangeAttributeEffect(mem, version, tableAddress, index, n, true, n);
  }

  lemma ClearThenHasNot(mem: seq<Byte>, version: nat, tableAddress: int, index: int, n: nat)
    requires ClearAttribute(mem, version, tableAddress, index, n).Ok?
    ensures HasAttribute(ClearAttribute(mem, version, tableAddress, index, n).value, version, tableAddress, index, n) == Ok(false)
  {
    ChangeAttributeEffect(mem, version, tableAddress, index, n, false, n);
  }

  /**
   * Set and clear write only the byte at the attributes address plus `n / 8`,
   * and within it only bit `7 - n % 8`.
   */
  lemma ChangeAttributeIsolation(mem: seq<Byte>, version: nat, tableAddress: int, index: int, n: nat, raise: bool)
    requires ChangeAttribute(mem, version, tableAddress, index, n, raise).Ok?
    ensures var after := ChangeAttribute(mem, version, tableAddress, index, n, raise).value;
            var at := EntryAddress(version, tableAddress, index) + n / 8;
            |after| == |mem| && 0 <= at < |mem| &&
            (forall i :: 0 <= i < |mem| && i != at ==> after[i] == mem[i]) &&
            (forall k :: 0 <= k < 8 ==> BitSet(after[at], k) == if k == 7 - n % 8 then raise else BitSet(mem[at], k))
  {
    var a := ChangedEntry(mem, version, tableAddress, index, n, raise);
    ChangedByteBits(mem[a + n / 8], 7 - n % 8, raise);
  }

  // ---------------------------------------------------------------- property headers

  /** Before version 4 one size byte holds both fields: 32 times the size minus one, plus the number. */
  lemma EarlyPropertyHeader(mem: seq<Byte>, version: nat, pa: int, stopsAtZero: bool)
    requires version <= 3
    ensures var r := ReadPropertyHeader(mem, version, pa, stopsAtZero);
            (r.Ok? <==> 0 <= pa < |mem|) &&
            (r.Ok? ==> (r.value.Terminator? <==> mem[pa] == 0)) &&
            (r.Ok? && r.value.Head? ==>
               r.value.number < 32 && 1 <= r.value.size <= 8 && r.value.dataAddress == pa + 1 &&
               mem[pa] == 32 * (r.value.size - 1) + r.value.number)
  {
  }

  /**
   * From version 4 on the number is the low six bits; bit 7 announces a
   * second byte whose low six bits are the size (0 meaning 64), otherwise bit
   * 6 chooses between sizes 1 and 2.
   */
  lemma LaterPropertyHeader(mem: seq<Byte>, version: nat, pa: int, stopsAtZero: bool)
    requires version >= 4 && 0 <= pa < |mem|
    requires !(stopsAtZero && mem[pa] == 0)
    ensures var r := ReadPropertyHeader(mem, version, pa, stopsAtZero);
            (r.Ok? <==> mem[pa] < 0x80 || pa + 1 < |mem|) &&
            (r.Ok? ==> r.value.Head? && r.value.number == mem[pa] % 64 && 1 <= r.value.size <= 64) &&
            (r.Ok? && mem[pa] >= 0x80 ==>
               r.value.dataAddress == pa + 2 && r.value.size % 64 == mem[pa + 1] % 64) &&
            (r.Ok? && mem[pa] < 0x80 ==>
               r.value.dataAddress == pa + 1 && r.value.size <= 2 &&
               mem[pa] == 64 * (r.value.size - 1) + r.value.number)
  {
  }

  // ---------------------------------------------------------------- the property scan

  /** The header at `pa`, when one can be read there. */
  function EndOf(es: seq<PropertyEntry>, pa: int): int
  {
    if es == [] then pa else es[|es| - 1].dataAddress + es[|es| - 1].size
  }

  /**
   * `es` is the property list from `pa`: the first header is at `pa`, each
   * entry is the header found at its address, each following header sits
   * right after the previous entry's data, and a terminator follows the last.
   */
  ghost predicate Chained(mem: seq<Byte>, version: nat, stopsAtZero: bool, es: seq<PropertyEntry>, pa: int)
  {
    (es != [] ==> es[0].headerAddress == pa) &&
    (forall i :: 0 <= i < |es| ==>
       ReadPropertyHeader(mem, version, es[i].headerAddress, stopsAtZero) ==
       Ok(Head(es[i].number, es[i].size, es[i].dataAddress))) &&
    (forall i :: 0 <= i < |es| - 1 ==> es[i + 1].headerAddress == es[i].dataAddress + es[i].size) &&
    ReadPropertyHeader(mem, version, EndOf(es, pa), stopsAtZero) == Ok(Terminator)
  }

  lemma ChainedCons(mem: seq<Byte>, version: nat, stopsAtZero: bool, e: PropertyEntry, es: seq<PropertyEntry>, pa: int)
    requires e.headerAddress == pa
    ensures Chained(mem, version, stopsAtZero, [e] + es, pa) <==>
            ReadPropertyHeader(mem, version, pa, stopsAtZero) == Ok(Head(e.number, e.size, e.dataAddress)) &&
            Chained(mem, version, stopsAtZero, es, e.dataAddress + e.size)
  {
    var all := [e] + es;
    assert EndOf(all, pa) == EndOf(es, e.dataAddress + e.size);
    if Chained(mem, version, stopsAtZero, all, pa) {
      forall i | 0 <= i < |es|
        ensures ReadPropertyHeader(mem, version, es[i].headerAddress, stopsAtZero) == Ok(Head(es[i].number, es[i].size, es[i].dataAddress))
      {
        assert es[i] == all[i + 1];
      }
      forall i | 0 <= i < |es| - 1
        ensures es[i + 1].headerAddress == es[i].dataAddress + es[i].size
      {
        assert es[i] == all[i + 1] && es[i + 1] == all[i + 2];
      }
      if es != [] {
        assert es[0] == all[1];
      }
    }
    if ReadPropertyHeader(mem, version, pa, stopsAtZero) == Ok(Head(e.number, e.size, e.dataAddress)) &&
       Chained(mem, version, stopsAtZero, es, e.dataAddress + e.size) {
      forall i | 0 <= i < |all|
        ensures ReadPropertyHeader(mem, version, all[i].headerAddress, stopsAtZero) == Ok(Head(all[i].number, all[i].size, all[i].dataAddress))
      {
        if i > 0 {
          assert all[i] == es[i - 1];
        }
      }
      forall i | 0 <= i < |all| - 1
        ensures all[i + 1].headerAddress == all[i].dataAddress + all[i].size
      {
        if i > 0 {
          assert all[i] == es[i - 1] && all[i + 1] == es[i];
        }
      }
    }
  }

  lemma {:induction false} ScanGivesChain(mem: seq<Byte>, version: nat, pa: int, stopsAtZero: bool)
    requires Scan(mem, version, pa, stopsAtZero).Ok?
    ensures Chained(mem, version, stopsAtZero, Scan(mem, version, pa, stopsAtZero).value, pa)
    decreases |mem| - pa
  {
    var head := ReadPropertyHeader(mem, version, pa, stopsAtZero).value;
    if head.Head? {
      var next := head.dataAddress + head.size;
      ScanGivesChain(mem, version, next, stopsAtZero);
      var rest := Scan(mem, version, next, stopsAtZero).value;
      ChainedCons(mem, version, stopsAtZero, PropertyEntry(head.number, head.size, pa, head.dataAddress), rest, pa);
    }
  }

  lemma {:induction false} ChainGivesScan(mem: seq<Byte>, version: nat, pa: int, stopsAtZero: bool, es: seq<PropertyEntry>)
    requires Chained(mem, version, stopsAtZero, es, pa)
    ensures Scan(mem, version, pa, stopsAtZero) == Ok(es)
    decreases |mem| - pa
  {
    if es != [] {
      var e := es[0];
      assert es == [e] + es[1..];
      ChainedCons(mem, version, stopsAtZero, e, es[1..], pa);
      ChainGivesScan(mem, version, e.dataAddress + e.size, stopsAtZero, es[1..]);
    }
  }

  /** The scan returns exactly the chained list of entries from `pa`, in list order. */
  lemma ScanIsChain(mem: seq<Byte>, version: nat, pa: int, stopsAtZero: bool, es: seq<PropertyEntry>)
    ensures Scan(mem, version, pa, stopsAtZero) == Ok(es) <==> Chained(mem, version, stopsAtZero, es, pa)
  {
    if Scan(mem, version, pa, stopsAtZero) == Ok(es) {
      ScanGivesChain(mem, version, pa, stopsAtZero);
    }
    if Chained(mem, version, stopsAtZero, es, pa) {
      ChainGivesScan(mem, version, pa, stopsAtZero, es);
    }
  }

  /**
   * The hash holds a number exactly when some entry has it, and then the size
   * and data address of the last such entry.
   */
  lemma {:induction false} ToMapLast(es: seq<PropertyEntry>, p: nat, i: int)
    requires 0 <= i < |es| && es[i].number == p
    requires forall j :: i < j < |es| ==> es[j].number != p
    ensures p in ToMap(es) && ToMap(es)[p] == PropertyInfo(es[i].size, es[i].dataAddress)
    decreases |es|
  {
    if i < |es| - 1 {
      ToMapLast(es[..|es| - 1], p, i);
    }
  }

  lemma {:induction false} ToMapAbsent(es: seq<PropertyEntry>, p: nat)
    ensures p !in ToMap(es) <==> forall j :: 0 <= j < |es| ==> es[j].number != p
    decreases |es|
  {
    if es != [] {
      ToMapAbsent(es[..|es| - 1], p);
      if es[|es| - 1].number != p {
        assert forall j :: 0 <= j < |es| - 1 ==> es[..|es| - 1][j] == es[j];
      }
    }
  }

  /** The property table is the hash of the chained list that starts after the padded short name. */
  lemma PropertyTableIsChain(mem: seq<Byte>, version: nat, tableAddress: int, index: int, stopsAtZero: bool)
    requires ObjectEntry(mem, version, tableAddress, index).Ok?
    requires 0 <= ObjectEntry(mem, version, tableAddress, index).value.propertiesAddress < |mem|
    ensures var pa := ObjectEntry(mem, version, tableAddress, index).value.propertiesAddress;
            var start := PropertiesStart(pa, mem[pa]);
            var r := PropertyTable(mem, version, tableAddress, index, stopsAtZero);
            (r.Ok? <==> exists es :: Chained(mem, version, stopsAtZero, es, start)) &&
            (forall es :: Chained(mem, version, stopsAtZero, es, start) ==> r == Ok(ToMap(es)))
  {
    var pa := ObjectEntry(mem, version, tableAddress, index).value.propertiesAddress;
    var start := PropertiesStart(pa, mem[pa]);
    var scan := Scan(mem, version, start, stopsAtZero);
    if scan.Ok? {
      ScanIsChain(mem, version, start, stopsAtZero, scan.value);
    }
    forall es | Chained(mem, version, stopsAtZero, es, start)
      ensures scan == Ok(es)
    {
      ScanIsChain(mem, version, start, stopsAtZero, es);
    }
  }

  // ---------------------------------------------------------------- the unterminated scan

  /** As written, a scan from version 4 on ends only in a failed read, whatever the image holds. */
  lemma {:induction false} LaterScanNeverEnds(mem: seq<Byte>, version: nat, pa: int)
    requires version >= 4
    ensures Scan(mem, version, pa, false).Err?
    decreases |mem| - pa
  {
    var head := ReadPropertyHeader(mem, version, pa, false);
    if head.Ok? {
      LaterScanNeverEnds(mem, version, head.value.dataAddress + head.value.size);
    }
  }

  lemma PropertiesAsWrittenFail(mem: seq<Byte>, version: nat, tableAddress: int, index: int)
    requires version >= 4
    ensures PropertiesAsWritten(mem, version, tableAddress, index).Err?
  {
    var entry := ObjectEntry(mem, version, tableAddress, index);
    if entry.Ok? && 0 <= entry.value.propertiesAddress < |mem| {
      var pa := entry.value.propertiesAddress;
      LaterScanNeverEnds(mem, version, PropertiesStart(pa, mem[pa]));
    }
  }

  /** Before version 4 the zero size byte already ends the list: the correction changes nothing. */
  lemma {:induction false} EarlyScanUnchanged(mem: seq<Byte>, version: nat, pa: int)
    requires version <= 3
    ensures Scan(mem, version, pa, true) == Scan(mem, version, pa, false)
    decreases |mem| - pa
  {
    var head := ReadPropertyHeader(mem, version, pa, true);
    assert head == ReadPropertyHeader(mem, version, pa, false);
    if head.Ok? && head.value.Head? {
      EarlyScanUnchanged(mem, version, head.value.dataAddress + head.value.size);
    }
  }

  /**
   * A version 4 list of one one-byte property (number 18) and a terminator:
   * the corrected scan finds it, the scan as written runs off the image.
   */
  lemma UnterminatedScanExample()
    ensures Scan([0x12, 0xAA, 0x00], 4, 0, true) == Ok([PropertyEntry(18, 1, 0, 1)])
    ensures Scan([0x12, 0xAA, 0x00], 4, 0, false) == Err(MajorAccessViolation(4))
  {
    var mem: seq<Byte> := [0x12, 0xAA, 0x00];
    assert ReadPropertyHeader(mem, 4, 0, true) == Ok(Head(18, 1, 1));
    assert ReadPropertyHeader(mem, 4, 2, true) == Ok(Terminator);
    assert Scan(mem, 4, 2, true) == Ok([]);
    assert [PropertyEntry(18, 1, 0, 1)] + [] == [PropertyEntry(18, 1, 0, 1)];
    assert ReadPropertyHeader(mem, 4, 2, false) == Ok(Head(0, 1, 3));
    assert Scan(mem, 4, 4, false) == Err(MajorAccessViolation(4));
    assert Scan(mem, 4, 2, false) == Err(MajorAccessViolation(4));
  }

  // ---------------------------------------------------------------- property data

  /**
   * `object_property` returns the `size` bytes at the data address of the
   * property's entry, and fails when the list has no such property.
   */
  lemma PropertyData(mem: seq<Byte>, version: nat, tableAddress: int, index: int, p: nat)
    requires Properties(mem, version, tableAddress, index).Ok?
    ensures var props := Properties(mem, version, tableAddress, index).value;
            var r := ObjectProperty(mem, version, tableAddress, index, p);
            (p !in props ==> r == Err(NoSuchProperty(p))) &&
            (p in props && props[p].size > 0 ==>
               (r.Ok? <==> 0 <= props[p].dataAddress && props[p].dataAddress + props[p].size <= |mem|)) &&
            (r.Ok? ==> p in props && |r.value| == props[p].size &&
                       forall i :: 0 <= i < props[p].size ==> r.value[i] == mem[props[p].dataAddress + i])
  {
    var props := Properties(mem, version, tableAddress, index).value;
    if p in props {
      ReadBytesSlice(mem, props[p].dataAddress, props[p].size);
    }
  }
}
