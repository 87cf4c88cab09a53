/** The symbol table (symtab.c): a chained hash table from names to memory locations. */
module TinySymtab {
  const SIZE: nat := 211
  const SHIFT_FACTOR: nat := 16

  type Addresses = map<string, int>

  /** The location of a name, or -1. */
  function Addr(addr: Addresses, name: string): int {
    if name in addr then addr[name] else -1
  }

  datatype Entry = Entry(name: string, lines: seq<int>, memloc: int)

  /** A bucket is a chain of entries. */
  datatype Bucket = Empty | Chain(entry: Entry, next: Bucket)

  /** Every step keeps the value below SIZE, so the C arithmetic never overflows. */
  function HashFrom(key: string, i: nat, temp: nat): (h: nat)
    requires i <= |key| && temp < SIZE
    ensures h < SIZE
    decreases |key| - i
  {
    if i == |key| then temp else HashFrom(key, i + 1, (temp * SHIFT_FACTOR + key[i] as int) % SIZE)
  }

  function HashOf(key: string): (h: nat)
    ensures h < SIZE
  {
    HashFrom(key, 0, 0)
  }

  /** The characters of the key as digits to the base 16. */
  function Digits(key: string): nat {
    if key == [] then 0 else 16 * Digits(key[..|key| - 1]) + key[|key| - 1] as int
  }

  /** Taking the remainder at every step gives the remainder of the whole number. */
  lemma HashIsRemainder(key: string)
    ensures HashOf(key) == Digits(key) % 211
  {
    HashPrefix(key, 0);
    assert key[..0] == [];
  }

  lemma RemainderStep(d: nat, x: nat)
    ensures (d % 211 * SHIFT_FACTOR + x) % 211 == (16 * d + x) % 211
  {
    var k, b := 16 * (d / 211), d % 211 * 16 + x;
    assert 16 * d + x == 211 * k + b;
    SameRemainder(k, b);
  }

  lemma SameRemainder(k: nat, b: nat)
    ensures (211 * k + b) % 211 == b % 211
  {
    var q, r := b / 211, b % 211;
    assert 211 * k + b == 211 * (k + q) + r && 0 <= r < 211;
  }

  lemma {:induction false} HashPrefix(key: string, i: nat)
    requires i <= |key|
    ensures HashFrom(key, i, Digits(key[..i]) % 211) == Digits(key) % 211
    decreases |key| - i
  {
    if i == |key| {
      assert key[..i] == key;
    } else {
      var d, x := Digits(key[..i]), key[i] as int;
      assert key[..i + 1][..i] == key[..i];
      assert Digits(key[..i + 1]) == 16 * d + x;
      RemainderStep(d, x);
      HashPrefix(key, i + 1);
    }
  }

  method Hash(key: string) returns (temp: nat)
    ensures temp == HashOf(key) == Digits(key) % 211
  {
    HashIsRemainder(key);
    temp := 0;
    var i := 0;
    while i < |key|
      invariant 0 <= i <= |key| && temp < SIZE
      invariant HashFrom(key, i, temp) == HashOf(key)
    {
      temp := (temp * SHIFT_FACTOR + key[i] as int) % SIZE;
      i := i + 1;
    }
  }

  /** The entry of a name in a chain: the first one. */
  function Find(b: Bucket, name: string): Bucket {
    if b.Empty? || b.entry.name == name then b else Find(b.next, name)
  }

  /** The chain with a line number added to the entry of a name. */
  function AddLine(b: Bucket, name: string, lineno: int): Bucket {
    if b.Empty? then b
    else if b.entry.name == name then b.(entry := b.entry.(lines := b.entry.lines + [lineno]))
    else b.(next := AddLine(b.next, name, lineno))
  }

  lemma {:induction b} FindAfterAddLine(b: Bucket, name: string, lineno: int, other: string)
    ensures Find(AddLine(b, name, lineno), other).Chain? <==> Find(b, other).Chain?
    ensures Find(b, other).Chain? ==>
              var e := Find(b, other).entry;
              e.name == other &&
              Find(AddLine(b, name, lineno), other).entry ==
              if other == name then e.(lines := e.lines + [lineno]) else e
  {
  }

  /** What inserting means on a plain map: the location counts only the first time, the line is always added. */
  function Inserted(m: map<string, Entry>, name: string, lineno: int, loc: int): map<string, Entry> {
    m[name := if name in m then m[name].(lines := m[name].lines + [lineno]) else Entry(name, [lineno], loc)]
  }

  class SymbolTable {
    const hashTable: array<Bucket>
    ghost var entries: map<string, Entry>

    /** The table agrees with the map `entries`, looked up in the bucket of each name's hash. */
    ghost predicate Valid()
      reads this, hashTable
    {
      && hashTable.Length == SIZE
      && forall name :: Agrees(name)
    }

    ghost predicate Agrees(name: string)
      requires hashTable.Length == SIZE
      reads this, hashTable
    {
      var b := Find(hashTable[HashOf(name)], name);
      && (name in entries <==> b.Chain?)
      && (name in entries ==> b.entry == entries[name])
    }

    ghost function Addresses(): Addresses
      reads this
    {
      map name | name in entries :: entries[name].memloc
    }

    /** How many line numbers a name has. */
    ghost function Lines(name: string): nat
      reads this
    {
      if name in entries then |entries[name].lines| else 0
    }

    constructor ()
      ensures Valid() && fresh(hashTable) && hashTable.Length == 211 && entries == map[]
    {
      hashTable := new Bucket[SIZE](_ => Empty);
      entries := map[];
    }

    method Insert(name: string, lineno: int, loc: int)
      requires Valid()
      modifies this, hashTable
      ensures Valid()
      ensures entries == Inserted(old(entries), name, lineno, loc)
      ensures name !in old(entries) ==> entries[name] == Entry(name, [lineno], loc)
      ensures name in old(entries) ==>
                var e := old(entries)[name];
                entries[name] == Entry(e.name, e.lines + [lineno], e.memloc)
      ensures forall other :: other in entries && other != name <==> other in old(entries) && other != name
      ensures forall other <- old(entries) :: other != name ==> entries[other] == old(entries)[other]
    {
      var h := Hash(name);
      var l := hashTable[h];
      while l.Chain? && l.entry.name != name
        invariant Find(l, name) == Find(hashTable[h], name)
        decreases l
      {
        l := l.next;
      }
      assert Agrees(name);
      ghost var before := hashTable[..];
      if l.Empty? {
        hashTable[h] := Chain(Entry(name, [lineno], loc), hashTable[h]);
      } else {
        hashTable[h] := AddLine(hashTable[h], name, lineno);
      }
      entries := Inserted(entries, name, lineno, loc);
      forall other
        ensures Agrees(other)
      {
        assert old(Agrees(other));
        FindAfterAddLine(before[h], name, lineno, other);
      }
    }

    method Lookup(name: string) returns (loc: int)
      requires Valid()
      ensures loc == Addr(Addresses(), name)
      ensures loc == if name in entries then entries[name].memloc else -1
    {
      var h := Hash(name);
      var l := hashTable[h];
      while l.Chain? && l.entry.name != name
        invariant Find(l, name) == Find(hashTable[h], name)
        decreases l
      {
        l := l.next;
      }
      assert Agrees(name);
      if l.Empty? {
        return -1;
      }
      loc := l.entry.memloc;
    }
  }
}
