/**
 * The class HashTable of hash_quad.py: an open-addressing table with string
 * keys and quadratic probing, kept in a fixed-length array of slots that the
 * methods update in place.  Each method is proved against the functions of
 * module HashSpec, where the table's properties are proved.
 */
module HashQuad {
  import opened HashSpec

  class HashTable<V> {
    /** The current number of slots. */
    var tableSize: nat
    /** The slot array (hash_table); a slot is empty or holds a (key, value) pair. */
    var slots: array<Slot<V>>
    /** The number of occupied slots. */
    var numItems: nat
    /** True while no insert has silently dropped an entry (its probe or a resize found no slot). */
    ghost var lossless: bool

    /** The table invariant. */
    ghost predicate Valid()
      reads this, slots
    {
      slots.Length == tableSize && Placed(slots[..]) && numItems == Count(slots[..])
    }

    /** The key-to-value mapping the table holds. */
    ghost function Contents(): map<string, V>
      reads this, slots
    {
      HashSpec.Contents(slots[..])
    }

    /** __post_init__: size empty slots and no items. */
    constructor (size: nat)
      requires size > 0
      ensures Valid() && fresh(slots)
      ensures tableSize == size && numItems == 0 && Contents() == map[] && lossless
      ensures slots[..] == Empties(size)
    {
      tableSize := size;
      slots := new Slot<V>[size](_ => Empty);
      numItems := 0;
      lossless := true;
      new;
      assert slots[..] == Empties(size);
      EmptiesHoldNothing<V>(size);
    }

    /** horner_hash: Horner's rule over at most the first 8 characters, modulo the size. */
    method HornerHash(key: string) returns (h: nat)
      requires tableSize > 0
      ensures h == Hash(key, tableSize)
    {
      var acc: nat := 0;
      var n := Min(PrefixLength, |key|);
      for i := 0 to n
        invariant acc == Horner(key[..i])
      {
        assert key[..i + 1][..i] == key[..i];
        acc := Radix * acc + Code(key[i]);
      }
      assert key[..n] == HashedPrefix(key);
      h := acc % tableSize;
    }

    /** get_load_factor: items / size, computed exactly. */
    function GetLoadFactor(): (r: real)
      reads this
      requires tableSize > 0
      ensures r >= 0.0
      ensures r > 0.5 <==> 2 * numItems > tableSize
    {
      LoadFactorTest(numItems, tableSize);
      numItems as real / tableSize as real
    }

    /** get_num_items: the number of keys in the table. */
    function GetNumItems(): (n: nat)
      reads this, slots
      requires Valid()
      ensures n == |Contents()|
    {
      PlacedKeysDistinct(slots[..]);
      CountIsSize(slots[..]);
      numItems
    }

    /** get_table_size: the number of slots, never zero. */
    function GetTableSize(): (n: nat)
      reads this, slots
      requires Valid()
      ensures n == slots.Length && n > 0
    {
      tableSize
    }

    /**
     * The probe loop of insert: store (key, value) at the first slot of
     * (h + i*i) % size, i < size, that is empty (one more item) or holds key
     * (value replaced).  If there is none, nothing changes.
     */
    method Put(key: string, value: V)
      requires Valid()
      modifies this, slots
      ensures Valid() && slots == old(slots) && tableSize == old(tableSize) && lossless == old(lossless)
      ensures slots[..] == HashSpec.Put(old(slots[..]), key, value)
    {
      ghost var s := slots[..];
      PutKeepsPlaced(s, key, value);
      var hashValue := HornerHash(key);
      for i := 0 to tableSize
        invariant slots[..] == s
        invariant forall t :: 0 <= t < i ==> !StopsAt(s[Probe(hashValue, t, |s|)], key)
      {
        var index := (hashValue + i * i) % tableSize;
        assert index == Probe(hashValue, i, |s|);
        if slots[index].Empty? {
          FirstStopIs(s, key, hashValue, i);
          CountUpdate(s, index, key, value);
          slots[index] := Full(key, value);
          numItems := numItems + 1;
          return;
        } else if slots[index].key == key {
          FirstStopIs(s, key, hashValue, i);
          CountUpdate(s, index, key, value);
          slots[index] := Full(key, value);
          return;
        }
      }
    }

    /**
     * resize: the size becomes 2 * size + 1 and every occupied slot, in slot
     * order, is inserted into a fresh table of that size, which then replaces
     * this one.
     */
    method Resize()
      requires Valid()
      modifies this
      ensures Valid() && fresh(slots)
      ensures tableSize == 2 * old(tableSize) + 1 && lossless == old(lossless)
      ensures slots[..] == Rebuild(old(slots[..]), tableSize)
    {
      tableSize := tableSize * 2 + 1;
      var newTable := Rehash(tableSize);
      slots := newTable.slots;
      tableSize := newTable.tableSize;
      numItems := newTable.numItems;
    }

    /**
     * The loop of resize: each occupied slot, in slot order, inserted into a
     * fresh table of the given size.  The load-factor check of those inserts
     * never fires, because at most n items go into 2 * n + 1 slots, so each
     * insert is its probe loop alone.
     */
    method Rehash(size: nat) returns (newTable: HashTable<V>)
      requires size == 2 * slots.Length + 1
      ensures fresh(newTable) && fresh(newTable.slots) && newTable.Valid()
      ensures newTable.tableSize == size && newTable.slots[..] == Rebuild(slots[..], size)
      ensures newTable.numItems <= slots.Length && 2 * newTable.numItems < newTable.tableSize
    {
      newTable := new HashTable<V>(size);
      for i := 0 to slots.Length
        invariant fresh(newTable) && fresh(newTable.slots)
        invariant newTable.Valid() && newTable.tableSize == size
        invariant newTable.slots[..] == Rebuild(slots[..i], size)
        invariant newTable.numItems <= i
      {
        assert slots[..i + 1][..i] == slots[..i];
        var cell := slots[i];
        if cell.Full? {
          ghost var before := newTable.slots[..];
          assert 2 * (newTable.numItems + 1) <= newTable.tableSize;
          newTable.Put(cell.key, cell.value);
          PutCountBound(before, cell.key, cell.value);
        }
      }
      assert slots[..] == slots[..slots.Length];
    }

    /**
     * insert: store (key, value) by the probe loop, then resize if the load
     * factor exceeds 0.5.  Afterwards the load factor is at most 0.5; when
     * nothing was lost, key maps to value and every other key keeps its value.
     */
    method Insert(key: string, value: V)
      requires Valid()
      modifies this, slots
      ensures Valid() && 2 * numItems <= tableSize
      ensures slots == old(slots) || fresh(slots)
      ensures slots[..] == InsertSlots(old(slots[..]), key, value)
      ensures lossless == (old(lossless) && InsertKeeps(old(slots[..]), key, value))
      ensures InsertKeeps(old(slots[..]), key, value) ==> Contents() == old(Contents())[key := value]
    {
      ghost var s := slots[..];
      lossless := lossless && InsertKeeps(s, key, value);
      Put(key, value);
      if GetLoadFactor() > 0.5 {
        Resize();
      }
      InsertInvariant(s, key, value);
      if InsertKeeps(s, key, value) {
        InsertKept(s, key, value);
      }
    }

    /** get_index: the slot holding key, found by walking its whole probe sequence, or None. */
    method GetIndex(key: string) returns (r: Option<nat>)
      requires Valid()
      ensures r == IndexOf(slots[..], key)
      ensures r.Some? <==> key in Contents()
      ensures r.Some? ==> r.value < slots.Length && slots[r.value] == Full(key, Contents()[key])
    {
      ghost var s := slots[..];
      IndexOfFinds(s, key);
      var index := HornerHash(key);
      for i := 0 to tableSize
        invariant forall t :: 0 <= t < i ==> !Holds(s[Probe(index, t, |s|)], key)
      {
        var j := (index + i * i) % tableSize;
        assert j == Probe(index, i, |s|);
        if slots[j].Full? && slots[j].key == key {
          FirstHoldingIs(s, key, index, i);
          return Some(j);
        }
      }
      return None;
    }

    /** in_table: whether key is stored. */
    method InTable(key: string) returns (b: bool)
      requires Valid()
      ensures b <==> key in Contents()
    {
      var index := GetIndex(key);
      b := index.Some?;
    }

    /** get_value: the value stored for key, or None when key is absent. */
    method GetValue(key: string) returns (r: Option<V>)
      requires Valid()
      ensures r == if key in Contents() then Some(Contents()[key]) else None
    {
      var index := GetIndex(key);
      if index.Some? {
        return Some(slots[index.value].value);
      }
      return None;
    }

    /** get_all_keys: the keys of the occupied slots in slot order, one per item, no duplicates. */
    method GetAllKeys() returns (keys: seq<string>)
      requires Valid()
      ensures keys == Keys(slots[..])
      ensures |keys| == numItems
      ensures forall k :: k in keys <==> k in Contents()
      ensures forall a, b :: 0 <= a < b < |keys| ==> keys[a] != keys[b]
    {
      keys := [];
      for i := 0 to slots.Length
        invariant keys == Keys(slots[..i])
      {
        assert slots[..i + 1][..i] == slots[..i];
        if slots[i].Full? {
          keys := keys + [slots[i].key];
        }
      }
      assert slots[..] == slots[..slots.Length];
      KeysLength(slots[..]);
      KeysAreContents(slots[..]);
      PlacedKeysDistinct(slots[..]);
      KeysDistinct(slots[..]);
    }
  }

  /** The product of two positive reals is positive. */
  lemma PosMul(x: real, y: real)
    requires x > 0.0 && y > 0.0
    ensures x * y > 0.0
  {
  }
  /** The load-factor test items / size > 0.5 is the integer test 2 * items > size. */
  lemma LoadFactorTest(items: nat, size: nat)
    requires size > 0
    ensures items as real / size as real >= 0.0
    ensures items as real / size as real > 0.5 <==> 2 * items > size
  {
    var a, b := items as real, size as real;
    var r := a / b;
    var d := r - 0.5;
    assert r * b == a;
    assert d * b == a - 0.5 * b;
    assert (2 * items) as real == 2.0 * a;
    if d > 0.0 {
      PosMul(d, b);
    } else if d < 0.0 {
      PosMul(-d, b);
    } else {
      assert d * b == 0.0;
    }
    if r < 0.0 {
      PosMul(-r, b);
    }
  }
}
