/**
 * The `ObjectTable` class of lib/gruesome/z/object_table.rb over a `Memory`.
 * Each method is proved against the function of the same name in
 * `ObjectTableModel`; the property scan is the corrected one, which stops
 * at a zero size byte in every version (see README.md).
 */
module ZObjectTable {
  import opened Wrappers
  import opened Words
  import opened ZMemory
  import M = MemoryModel
  import O = ObjectTableModel
  import OP = ObjectTableProperties

  /** Puts `es` in front of the entries of a successful scan. */
  function WithEntries(es: seq<O.PropertyEntry>, r: M.Res<seq<O.PropertyEntry>>): M.Res<seq<O.PropertyEntry>>
  {
    match r
    case Ok(rest) => Ok(es + rest)
    case Err(e) => Err(e)
  }

  lemma WithEntriesTwice(a: seq<O.PropertyEntry>, b: seq<O.PropertyEntry>, r: M.Res<seq<O.PropertyEntry>>)
    ensures WithEntries(a, WithEntries(b, r)) == WithEntries(a + b, r)
  {
    if r.Ok? {
      assert a + (b + r.value) == (a + b) + r.value;
    }
  }

  class ObjectTable {
    const memory: Memory
    const version: nat
    const address: int
    const objectTreeAddress: int
    const attributesSize: nat
    const objectIdSize: nat
    const entrySize: nat

    ghost predicate Valid()
    {
      version == memory.header.version && address == memory.header.objectTblAddr &&
      objectTreeAddress == O.ObjectTreeAddress(version, address) &&
      attributesSize == O.AttributesSize(version) && objectIdSize == O.ObjectIdSize(version) &&
      entrySize == O.EntrySize(version)
    }

    /** The layout constants `initialize` derives from the header. */
    constructor (memory: Memory)
      ensures this.memory == memory && Valid()
    {
      this.memory := memory;
      var v := memory.header.version;
      var numProperties := if v <= 3 then 32 else 64;
      var attributes, ids := 6, 2;
      if v <= 3 {
        attributes, ids := 4, 1;
      }
      version := v;
      address := memory.header.objectTblAddr;
      objectTreeAddress := memory.header.objectTblAddr + numProperties * 2;
      attributesSize := attributes;
      objectIdSize := ids;
      entrySize := attributes + ids * 3 + 2;
    }

    /** `count.times` reads with `force_readb`, as in `object_entry` and `object_property`. */
    method ReadBytes(a: int, count: nat) returns (r: M.Res<seq<Byte>>)
      ensures r == O.ReadBytes(memory.bytes[..], a, count)
    {
      OP.ReadBytesSlice(memory.bytes[..], a, count);
      var data: seq<Byte> := [];
      var i := 0;
      while i < count
        invariant 0 <= i <= count
        invariant i == 0 ==> data == []
        invariant i > 0 ==> 0 <= a && a + i <= memory.bytes.Length && data == memory.bytes[a..a + i]
      {
        var b := memory.ForceReadB(a + i);
        if b.Err? {
          return Err(b.error);
        }
        assert memory.bytes[a..a + i + 1] == memory.bytes[a..a + i] + [memory.bytes[a + i]];
        data := data + [b.value];
        i := i + 1;
      }
      if count > 0 {
        assert memory.bytes[..][a..a + count] == memory.bytes[a..a + count];
      }
      r := Ok(data);
    }

    method ReadId(a: int) returns (r: M.Res<Word>)
      requires Valid()
      ensures r == O.ReadId(memory.bytes[..], version, a)
    {
      if objectIdSize == 2 {
        r := memory.ForceReadW(a);
      } else {
        var b := memory.ForceReadB(a);
        if b.Err? {
          return Err(b.error);
        }
        r := Ok(b.value);
      }
    }

    method ObjectEntry(index: int) returns (r: M.Res<O.Entry>)
      requires Valid()
      ensures r == O.ObjectEntry(memory.bytes[..], version, address, index)
    {
      var entryAddress := objectTreeAddress + (index - 1) * entrySize;
      var attributes := ReadBytes(entryAddress, attributesSize);
      if attributes.Err? {
        return Err(attributes.error);
      }
      var current := entryAddress + attributesSize;
      var ids: seq<Word> := [];
      while |ids| < 3
        invariant |ids| <= 3 && current == entryAddress + attributesSize + |ids| * objectIdSize
        invariant |ids| >= 1 ==> O.ReadId(memory.bytes[..], version, entryAddress + attributesSize) == Ok(ids[0])
        invariant |ids| >= 2 ==> O.ReadId(memory.bytes[..], version, entryAddress + attributesSize + objectIdSize) == Ok(ids[1])
        invariant |ids| >= 3 ==> O.ReadId(memory.bytes[..], version, entryAddress + attributesSize + 2 * objectIdSize) == Ok(ids[2])
        invariant forall j :: 0 <= j < |ids| ==> O.ReadId(memory.bytes[..], version, entryAddress + attributesSize + j * objectIdSize).Ok?
      {
        var id := ReadId(current);
        if id.Err? {
          return Err(id.error);
        }
        ids := ids + [id.value];
        current := current + objectIdSize;
      }
      var properties := memory.ForceReadW(current);
      if properties.Err? {
        return Err(properties.error);
      }
      r := Ok(O.Entry(entryAddress, attributes.value, ids[0], ids[1], ids[2], properties.value));
    }

    method HasAttribute(index: int, n: nat) returns (r: M.Res<bool>)
      requires Valid()
      ensures r == O.HasAttribute(memory.bytes[..], version, address, index, n)
    {
      var entry := ObjectEntry(index);
      if entry.Err? {
        return Err(entry.error);
      }
      var byte, bit := n / 8, 7 - n % 8;
      if byte >= |entry.value.attributes| {
        return Err(M.NoSuchAttribute(n));
      }
      r := Ok(BitSet(entry.value.attributes[byte], bit));
    }

    method ChangeAttribute(index: int, n: nat, raise: bool) returns (r: Outcome<M.Error>)
      requires Valid()
      modifies memory.bytes
      ensures r == M.OutcomeOf(O.ChangeAttribute(old(memory.bytes[..]), version, address, index, n, raise))
      ensures r.Pass? ==> memory.bytes[..] == O.ChangeAttribute(old(memory.bytes[..]), version, address, index, n, raise).value
      ensures r.Fail? ==> memory.bytes[..] == old(memory.bytes[..])
    {
      var entry := ObjectEntry(index);
      if entry.Err? {
        return Fail(entry.error);
      }
      var byte, bit := n / 8, 7 - n % 8;
      if byte >= |entry.value.attributes| {
        return Fail(M.NoSuchAttribute(n));
      }
      var attributeByte := entry.value.attributes[byte];
      var changed := if raise then WithBit(attributeByte, bit) else WithoutBit(attributeByte, bit);
      r := memory.ForceWriteB(entry.value.attributesAddress + byte, changed);
    }

    /** `object_set_attribute` */
    method SetAttribute(index: int, n: nat) returns (r: Outcome<M.Error>)
      requires Valid()
      modifies memory.bytes
      ensures r == M.OutcomeOf(O.SetAttribute(old(memory.bytes[..]), version, address, index, n))
      ensures r.Pass? ==> memory.bytes[..] == O.SetAttribute(old(memory.bytes[..]), version, address, index, n).value
      ensures r.Fail? ==> memory.bytes[..] == old(memory.bytes[..])
    {
      r := ChangeAttribute(index, n, true);
    }

    /** `object_clear_attribute` */
    method ClearAttribute(index: int, n: nat) returns (r: Outcome<M.Error>)
      requires Valid()
      modifies memory.bytes
      ensures r == M.OutcomeOf(O.ClearAttribute(old(memory.bytes[..]), version, address, index, n))
      ensures r.Pass? ==> memory.bytes[..] == O.ClearAttribute(old(memory.bytes[..]), version, address, index, n).value
      ensures r.Fail? ==> memory.bytes[..] == old(memory.bytes[..])
    {
      r := ChangeAttribute(index, n, false);
    }

    /** The header decoding in the body of the `while true` loop of `object_properties`. */
    method ReadPropertyHeader(pa: int) returns (r: M.Res<O.PropertyHead>)
      requires Valid()
      ensures r == O.ReadPropertyHeader(memory.bytes[..], version, pa, true)
    {
      var first := memory.ForceReadB(pa);
      if first.Err? {
        return Err(first.error);
      }
      var b := first.value;
      if version <= 3 {
        if b == 0 {
          return Ok(O.Terminator);
        }
        r := Ok(O.Head(b % 32, b / 32 + 1, pa + 1));
      } else if b == 0 {
        r := Ok(O.Terminator);
      } else if b >= 0x80 {
        var second := memory.ForceReadB(pa + 1);
        if second.Err? {
          return Err(second.error);
        }
        var size := second.value % 64;
        if size == 0 {
          size := 64;
        }
        r := Ok(O.Head(b % 64, size, pa + 2));
      } else if (b / 64) % 2 == 1 {
        r := Ok(O.Head(b % 64, 2, pa + 1));
      } else {
        r := Ok(O.Head(b % 64, 1, pa + 1));
      }
    }

    /** `object_properties`, with the list ending at a zero size byte. */
    method Properties(index: int) returns (r: M.Res<map<nat, O.PropertyInfo>>)
      requires Valid()
      ensures r == O.Properties(memory.bytes[..], version, address, index)
    {
      var entry := ObjectEntry(index);
      if entry.Err? {
        return Err(entry.error);
      }
      var textLen := memory.ForceReadB(entry.value.propertiesAddress);
      if textLen.Err? {
        return Err(textLen.error);
      }
      var padded := textLen.value as int + textLen.value % 2;
      var pa := entry.value.propertiesAddress + 1 + padded;
      ghost var mem := memory.bytes[..];
      ghost var spec := O.Scan(mem, version, pa, true);
      ghost var es: seq<O.PropertyEntry> := [];
      assert WithEntries([], spec) == spec by {
        if spec.Ok? {
          assert [] + spec.value == spec.value;
        }
      }
      var properties: map<nat, O.PropertyInfo> := map[];
      while true
        invariant WithEntries(es, O.Scan(mem, version, pa, true)) == spec
        invariant properties == O.ToMap(es)
        decreases if pa <= |mem| then |mem| - pa else 0
      {
        var head := ReadPropertyHeader(pa);
        if head.Err? {
          return Err(head.error);
        }
        if head.value.Terminator? {
          assert es + [] == es;
          break;
        }
        var e := O.PropertyEntry(head.value.number, head.value.size, pa, head.value.dataAddress);
        WithEntriesTwice(es, [e], O.Scan(mem, version, head.value.dataAddress + head.value.size, true));
        assert (es + [e])[..|es|] == es;
        properties := properties[e.number := O.PropertyInfo(e.size, e.dataAddress)];
        es := es + [e];
        pa := head.value.dataAddress + head.value.size;
      }
      r := Ok(properties);
    }

    /** `object_property`: the data bytes of property `p` of object `index`. */
    method Property(index: int, p: nat) returns (r: M.Res<seq<Byte>>)
      requires Valid()
      ensures r == O.ObjectProperty(memory.bytes[..], version, address, index, p)
    {
      var properties := Properties(index);
      if properties.Err? {
        return Err(properties.error);
      }
      if p !in properties.value {
        return Err(M.NoSuchProperty(p));
      }
      var info := properties.value[p];
      r := ReadBytes(info.dataAddress, info.size);
    }
  }
}
