/**
 * Value-level model of `ObjectTable` (lib/gruesome/z/object_table.rb): the
 * layout of object entries, the attribute flags counted from the most
 * significant bit, and the property list that follows each object's short
 * name. The functions read and write the story image as a `seq<Byte>`; the
 * class in object_table.dfy is proved against them.
 */
module ObjectTableModel {
  import opened Wrappers
  import opened Words
  import opened MemoryModel

  // ---------------------------------------------------------------- layout

  /** Default property words before the first entry, as the code has them (32 or 64). */
  function NumProperties(version: nat): nat { if version <= 3 then 32 else 64 }

  function AttributesSize(version: nat): nat { if version <= 3 then 4 else 6 }

  function ObjectIdSize(version: nat): nat { if version <= 3 then 1 else 2 }

  /** Attributes, then parent, sibling and child ids, then the properties address. */
  function EntrySize(version: nat): nat { AttributesSize(version) + ObjectIdSize(version) * 3 + 2 }

  function ObjectTreeAddress(version: nat, tableAddress: int): int
  {
    tableAddress + NumProperties(version) * 2
  }

  /** Where entry `index` starts; objects are numbered from 1. */
  function EntryAddress(version: nat, tableAddress: int, index: int): int
  {
    ObjectTreeAddress(version, tableAddress) + (index - 1) * EntrySize(version)
  }

  /** The hash `object_entry` returns. */
  datatype Entry = Entry(
    attributesAddress: int,
    attributes: seq<Byte>,
    parent: Word,
    sibling: Word,
    child: Word,
    propertiesAddress: Word)

  /** `count` bytes read one by one with `force_readb` from `a` on. */
  function ReadBytes(mem: seq<Byte>, a: int, count: nat): Res<seq<Byte>>
    decreases count
  {
    if count == 0 then Ok([])
    else
      var b :- ForceReadB(mem, a);
      var rest :- ReadBytes(mem, a + 1, count - 1);
      Ok([b] + rest)
  }

  /** One object id: a word in versions 4 and later, a byte before. */
  function ReadId(mem: seq<Byte>, version: nat, a: int): Res<Word>
  {
    if ObjectIdSize(version) == 2 then ForceReadW(mem, a)
    else
      var b :- ForceReadB(mem, a);
      Ok(b)
  }

  function ObjectEntry(mem: seq<Byte>, version: nat, tableAddress: int, index: int): Res<Entry>
  {
    var a := EntryAddress(version, tableAddress, index);
    var attributes :- ReadBytes(mem, a, AttributesSize(version));
    var ids := a + AttributesSize(version);
    var step := ObjectIdSize(version);
    var parent :- ReadId(mem, version, ids);
    var sibling :- ReadId(mem, version, ids + step);
    var child :- ReadId(mem, version, ids + 2 * step);
    var properties :- ForceReadW(mem, ids + 3 * step);
    Ok(Entry(a, attributes, parent, sibling, child, properties))
  }

  // ---------------------------------------------------------------- attributes

  /**
   * `attribute_number_to_byte_bit_pair`: attributes are counted from the most
   * significant bit of the first attribute byte.
   */
  function AttributeByteBit(n: nat): (r: (nat, nat))
    ensures r.1 < 8
    ensures r.0 * 8 + (7 - r.1) == n
  {
    (n / 8, 7 - n % 8)
  }

  /** `object_has_attribute?`; an attribute byte past the entry's attributes is nil in Ruby. */
  function HasAttribute(mem: seq<Byte>, version: nat, tableAddress: int, index: int, n: nat): Res<bool>
  {
    var entry :- ObjectEntry(mem, version, tableAddress, index);
    EntryHasAttribute(entry, n)
  }

  function EntryHasAttribute(entry: Entry, n: nat): Res<bool>
  {
    var location := AttributeByteBit(n);
    if location.0 >= |entry.attributes| then Err(NoSuchAttribute(n))
    else Ok(BitSet(entry.attributes[location.0], location.1))
  }

  /** The attribute byte with bit `bit` set (`raise`) or cleared: `b | mask` or `b & ~mask`. */
  function Changed(b: Byte, bit: nat, raise: bool): Byte
    requires bit < 8
  {
    if raise then WithBit(b, bit) else WithoutBit(b, bit)
  }

  /** `object_set_attribute` (`raise` true) and `object_clear_attribute` (`raise` false). */
  function ChangeAttribute(mem: seq<Byte>, version: nat, tableAddress: int, index: int, n: nat, raise: bool): Res<seq<Byte>>
  {
    var entry :- ObjectEntry(mem, version, tableAddress, index);
    ChangeEntryAttribute(mem, entry, n, raise)
  }

  function ChangeEntryAttribute(mem: seq<Byte>, entry: Entry, n: nat, raise: bool): Res<seq<Byte>>
  {
    var location := AttributeByteBit(n);
    if location.0 >= |entry.attributes| then Err(NoSuchAttribute(n))
    else ForceWriteB(mem, entry.attributesAddress + location.0, Changed(entry.attributes[location.0], location.1, raise))
  }

  function SetAttribute(mem: seq<Byte>, version: nat, tableAddress: int, index: int, n: nat): Res<seq<Byte>>
  {
    ChangeAttribute(mem, version, tableAddress, index, n, true)
  }

  function ClearAttribute(mem: seq<Byte>, version: nat, tableAddress: int, index: int, n: nat): Res<seq<Byte>>
  {
    ChangeAttribute(mem, version, tableAddress, index, n, false)
  }

  // ---------------------------------------------------------------- properties

  /** A property-list header: the end of the list, or a property and where its data is. */
  datatype PropertyHead = Terminator | Head(number: nat, size: nat, dataAddress: int)

  /**
   * The header at `pa`. The masks of the code are written arithmetically:
   * `b & 0b11111` is `b % 32`, `b >> 5` is `b / 32`, bit 7 set is `b >= 0x80`
   * and bit 6 set is `(b / 64) % 2 == 1`. In versions 4 and later the code
   * has no terminator; `stopsAtZero` adds the zero size byte that ends the
   * list in every version.
   */
  function ReadPropertyHeader(mem: seq<Byte>, version: nat, pa: int, stopsAtZero: bool): (r: Res<PropertyHead>)
    ensures r.Ok? ==> 0 <= pa < |mem|
    ensures r.Ok? && r.value.Head? ==> pa < r.value.dataAddress && 1 <= r.value.size
  {
    var first :- ForceReadB(mem, pa);
    if version <= 3 then
      if first == 0 then Ok(Terminator)
      else Ok(Head(first % 32, first / 32 + 1, pa + 1))
    else if stopsAtZero && first == 0 then Ok(Terminator)
    else if first >= 0x80 then
      var second :- ForceReadB(mem, pa + 1);
      var size := second % 64;
      Ok(Head(first % 64, if size == 0 then 64 else size, pa + 2))
    else
      Ok(Head(first % 64, if (first / 64) % 2 == 1 then 2 else 1, pa + 1))
  }

  /** One property of the list, in list order. */
  datatype PropertyEntry = PropertyEntry(number: nat, size: nat, headerAddress: int, dataAddress: int)

  /** The `while true` loop of `object_properties`, from the header at `pa`. */
  function Scan(mem: seq<Byte>, version: nat, pa: int, stopsAtZero: bool): Res<seq<PropertyEntry>>
    decreases |mem| - pa
  {
    var head :- ReadPropertyHeader(mem, version, pa, stopsAtZero);
    match head
    case Terminator => Ok([])
    case Head(number, size, data) =>
      var rest :- Scan(mem, version, data + size, stopsAtZero);
      Ok([PropertyEntry(number, size, pa, data)] + rest)
  }

  /** The value the hash of `object_properties` holds for a property number. */
  datatype PropertyInfo = PropertyInfo(size: nat, dataAddress: int)

  /** The hash filled in list order: a later entry for the same number replaces an earlier one. */
  function ToMap(es: seq<PropertyEntry>): map<nat, PropertyInfo>
    decreases |es|
  {
    if es == [] then map[]
    else
      var last := es[|es| - 1];
      ToMap(es[..|es| - 1])[last.number := PropertyInfo(last.size, last.dataAddress)]
  }

  /** Where the list starts: after the length byte and the short name, its length padded to even. */
  function PropertiesStart(propertiesAddress: int, textLen: Byte): (r: int)
    ensures var skipped := r - propertiesAddress - 1;
            skipped % 2 == 0 && textLen <= skipped <= textLen + 1
  {
    var padded := textLen + textLen % 2;
    propertiesAddress + 1 + padded
  }

  function PropertyTable(mem: seq<Byte>, version: nat, tableAddress: int, index: int, stopsAtZero: bool)
    : Res<map<nat, PropertyInfo>>
  {
    var entry :- ObjectEntry(mem, version, tableAddress, index);
    var textLen :- ForceReadB(mem, entry.propertiesAddress);
    var es :- Scan(mem, version, PropertiesStart(entry.propertiesAddress, textLen), stopsAtZero);
    Ok(ToMap(es))
  }

  /** `object_properties` as written: in versions 4 and later only a failed read ends the scan. */
  function PropertiesAsWritten(mem: seq<Byte>, version: nat, tableAddress: int, index: int): Res<map<nat, PropertyInfo>>
  {
    PropertyTable(mem, version, tableAddress, index, false)
  }

  /** `object_properties` with the list ending at a zero size byte in every version. */
  function Properties(mem: seq<Byte>, version: nat, tableAddress: int, index: int): Res<map<nat, PropertyInfo>>
  {
    PropertyTable(mem, version, tableAddress, index, true)
  }

  /** `object_property`: the data bytes of property `p`; an absent property is nil in Ruby. */
  function ObjectProperty(mem: seq<Byte>, version: nat, tableAddress: int, index: int, p: nat): Res<seq<Byte>>
  {
    var props :- Properties(mem, version, tableAddress, index);
    if p !in props then Err(NoSuchProperty(p))
    else ReadBytes(mem, props[p].dataAddress, props[p].size)
  }
}
