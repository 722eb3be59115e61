/** A fixed row of slots, each holding at most one in-flight assembly, found by key.
    The fast-packet slots and the transport-protocol sessions are both kept this way:
    an unused slot is taken first, and when there is none the oldest claim is evicted. */
module SlotTable {
  import opened Wire

  datatype Cell<K, V> = Cell(used: bool, key: K, age: nat, held: V)

  /** The first slot at or after `i` in use for `key`. */
  function FindFrom<K(==), V>(cells: seq<Cell<K, V>>, key: K, i: nat): (r: Option<nat>)
    requires i <= |cells|
    ensures r.Some? ==> i <= r.value < |cells| && cells[r.value].used && cells[r.value].key == key
    ensures r.None? ==> forall j :: i <= j < |cells| && cells[j].used ==> cells[j].key != key
    decreases |cells| - i
  {
    if i == |cells| then None
    else if cells[i].used && cells[i].key == key then Some(i)
    else FindFrom(cells, key, i + 1)
  }

  function Find<K(==), V>(cells: seq<Cell<K, V>>, key: K): Option<nat> { FindFrom(cells, key, 0) }

  /** The first unused slot at or after `i`. */
  function FreeFrom<K, V>(cells: seq<Cell<K, V>>, i: nat): (r: Option<nat>)
    requires i <= |cells|
    ensures r.Some? ==> i <= r.value < |cells| && !cells[r.value].used
    ensures r.None? ==> forall j :: i <= j < |cells| ==> cells[j].used
    decreases |cells| - i
  {
    if i == |cells| then None
    else if !cells[i].used then Some(i)
    else FreeFrom(cells, i + 1)
  }

  /** The first of the slots before `n` with the least age. */
  function OldestBefore<K, V>(cells: seq<Cell<K, V>>, n: nat): (r: nat)
    requires 0 < n <= |cells|
    ensures r < n
    ensures forall j :: 0 <= j < n ==> cells[r].age <= cells[j].age
    ensures forall j :: 0 <= j < r ==> cells[r].age < cells[j].age
  {
    if n == 1 then 0
    else
      var before := OldestBefore(cells, n - 1);
      if cells[n - 1].age < cells[before].age then n - 1 else before
  }

  /** Where a new claim goes; nowhere only if there are no slots at all. */
  function Place<K, V>(cells: seq<Cell<K, V>>): (r: Option<nat>)
    ensures r.Some? ==> r.value < |cells|
    ensures r.None? <==> cells == []
  {
    var free := FreeFrom(cells, 0);
    if free.Some? then free
    else if cells == [] then None
    else Some(OldestBefore(cells, |cells|))
  }

  /** What the table holds for `key`: the table read as a map. */
  function Lookup<K(==), V>(cells: seq<Cell<K, V>>, key: K): Option<V> {
    var i := Find(cells, key);
    if i.Some? then Some(cells[i.value].held) else None
  }

  /** No key is held twice. */
  predicate Distinct<K(==), V>(cells: seq<Cell<K, V>>) {
    forall i, j :: 0 <= i < j < |cells| && cells[i].used && cells[j].used ==> cells[i].key != cells[j].key
  }

  lemma FindUnique<K, V>(cells: seq<Cell<K, V>>, i: nat)
    requires Distinct(cells) && i < |cells| && cells[i].used
    ensures Find(cells, cells[i].key) == Some(i)
  {
  }

  /** Writing one slot changes what is held for the key that was there and for the key
      that is there now, and for no other. */
  lemma Overwrite<K, V>(cells: seq<Cell<K, V>>, i: nat, cell: Cell<K, V>)
    requires Distinct(cells) && i < |cells|
    requires cell.used ==> forall j :: 0 <= j < |cells| && j != i && cells[j].used ==> cells[j].key != cell.key
    ensures Distinct(cells[i := cell])
    ensures cell.used ==> Lookup(cells[i := cell], cell.key) == Some(cell.held)
    ensures cells[i].used && !(cell.used && cell.key == cells[i].key) ==> Lookup(cells[i := cell], cells[i].key) == None
    ensures forall k :: (cell.used ==> k != cell.key) && (cells[i].used ==> k != cells[i].key) ==>
              Lookup(cells[i := cell], k) == Lookup(cells, k)
  {
    var after := cells[i := cell];
    if cell.used {
      FindUnique(after, i);
    }
    forall k | (cell.used ==> k != cell.key) && (cells[i].used ==> k != cells[i].key)
      ensures Lookup(after, k) == Lookup(cells, k)
    {
      var was := Find(cells, k);
      if was.Some? {
        assert after[was.value] == cells[was.value];
        FindUnique(after, was.value);
      }
    }
  }

  /** The keys in use. */
  ghost function LiveKeys<K, V>(cells: seq<Cell<K, V>>): set<K> {
    set i | 0 <= i < |cells| && cells[i].used :: cells[i].key
  }

  lemma {:induction false} FullTableKeys<K, V>(cells: seq<Cell<K, V>>)
    requires Distinct(cells) && forall i :: 0 <= i < |cells| ==> cells[i].used
    ensures |LiveKeys(cells)| == |cells|
  {
    if cells == [] {
      assert LiveKeys(cells) == {};
    } else {
      var rest := cells[1..];
      FullTableKeys(rest);
      assert LiveKeys(cells) == LiveKeys(rest) + {cells[0].key} by {
        forall k | k in LiveKeys(cells)
          ensures k in LiveKeys(rest) + {cells[0].key}
        {
          var i :| 0 <= i < |cells| && cells[i].used && cells[i].key == k;
          if i > 0 {
            assert rest[i - 1] == cells[i];
          }
        }
        forall k | k in LiveKeys(rest)
          ensures k in LiveKeys(cells)
        {
          var i :| 0 <= i < |rest| && rest[i].used && rest[i].key == k;
          assert cells[i + 1] == rest[i];
        }
      }
      assert cells[0].key !in LiveKeys(rest) by {
        forall i | 0 <= i < |rest|
          ensures rest[i].key != cells[0].key
        {
          assert rest[i] == cells[i + 1];
        }
      }
    }
  }

  /** The claim of a slot for `key` evicts `victim`. */
  predicate Evicts<K(==), V>(cells: seq<Cell<K, V>>, key: K, victim: K) {
    var place := Place(cells);
    Find(cells, key).None? && place.Some? && cells[place.value].used && cells[place.value].key == victim
  }

  /** While the keys in use, with the new one, are no more than the slots, nothing is evicted. */
  lemma NoEviction<K, V>(cells: seq<Cell<K, V>>, key: K)
    requires Distinct(cells)
    requires |LiveKeys(cells) + {key}| <= |cells|
    ensures forall victim :: !Evicts(cells, key, victim)
  {
    assert Find(cells, key).None? ==> key !in LiveKeys(cells);
    if FreeFrom(cells, 0).None? && Find(cells, key).None? {
      FullTableKeys(cells);
    }
  }

  /** An evicted key is that of the oldest claim. */
  lemma EvictsOldest<K, V>(cells: seq<Cell<K, V>>, key: K, victim: K)
    requires Distinct(cells) && Evicts(cells, key, victim)
    ensures var i := Find(cells, victim);
            i.Some? && forall j :: 0 <= j < |cells| ==> cells[j].used && cells[i.value].age <= cells[j].age
  {
    FindUnique(cells, Place(cells).value);
  }
}
