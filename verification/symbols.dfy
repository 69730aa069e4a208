/** The symbol table of simple.c (`sym_get_addr`, `sym_add`): a flat list
    of (name, address) entries in declaration order and the next free data
    address, which starts at 0x10. */
module Symbols {

  const DataBase: nat := 0x10

  datatype Sym = Sym(name: string, addr: nat)

  datatype SymTable = SymTable(syms: seq<Sym>, nextDataAddr: nat)

  const EmptyTable := SymTable([], DataBase)

  function Names(t: SymTable): set<string> {
    set k | 0 <= k < |t.syms| :: t.syms[k].name
  }

  /** The table as `sym_add` keeps it: the k-th entry lives at
      DataBase + k, the next free address follows the last entry, and no
      name occurs twice. */
  ghost predicate Valid(t: SymTable) {
    && (forall k :: 0 <= k < |t.syms| ==> t.syms[k].addr == DataBase + k)
    && t.nextDataAddr == DataBase + |t.syms|
    && (forall j, k :: 0 <= j < k < |t.syms| ==> t.syms[j].name != t.syms[k].name)
  }

  /** Index of the first entry named `name`, scanning from `from`. */
  function FindFrom(syms: seq<Sym>, name: string, from: nat): (k: int)
    requires from <= |syms|
    ensures k == -1 <==> forall j :: from <= j < |syms| ==> syms[j].name != name
    ensures k != -1 ==> from <= k < |syms| && syms[k].name == name
    ensures k != -1 ==> forall j :: from <= j < k ==> syms[j].name != name
    decreases |syms| - from
  {
    if from == |syms| then -1
    else if syms[from].name == name then from
    else FindFrom(syms, name, from + 1)
  }

  /** `sym_get_addr`: the address of the first entry named `name`, or -1
      when no entry has that name. */
  function GetAddr(t: SymTable, name: string): (a: int)
    ensures a == -1 <==> name !in Names(t)
    ensures a != -1 ==> exists k :: 0 <= k < |t.syms| && t.syms[k].name == name && t.syms[k].addr == a
  {
    var k := FindFrom(t.syms, name, 0);
    if k == -1 then
      -1
    else
      assert t.syms[k].name in Names(t);
      t.syms[k].addr
  }

  /** `sym_add`: a name already present keeps its address and the table is
      left as it was; a fresh name is appended at the next data address,
      which then moves on by one. */
  function Add(t: SymTable, name: string): (r: (nat, SymTable))
    ensures name in Names(t) ==> r.1 == t && r.0 == GetAddr(t, name)
    ensures name !in Names(t) ==>
      && r.0 == t.nextDataAddr
      && r.1.syms == t.syms + [Sym(name, t.nextDataAddr)]
      && r.1.nextDataAddr == t.nextDataAddr + 1
    ensures Names(r.1) == Names(t) + {name}
    ensures GetAddr(r.1, name) == r.0
  {
    var a := GetAddr(t, name);
    if a != -1 then
      (a, t)
    else
      var t' := SymTable(t.syms + [Sym(name, t.nextDataAddr)], t.nextDataAddr + 1);
      assert forall k :: 0 <= k < |t.syms| ==> t'.syms[k] == t.syms[k];
      assert Names(t') == Names(t) + {name} by {
        forall n | n in Names(t') ensures n in Names(t) + {name} {
          var k :| 0 <= k < |t'.syms| && t'.syms[k].name == n;
          if k < |t.syms| { assert t.syms[k].name == n; }
        }
        forall n | n in Names(t) ensures n in Names(t') {
          var k :| 0 <= k < |t.syms| && t.syms[k].name == n;
          assert t'.syms[k].name == n;
        }
        assert t'.syms[|t.syms|].name == name;
      }
      assert forall k :: 0 <= k < |t.syms| ==> t.syms[k].name in Names(t);
      assert FindFrom(t'.syms, name, 0) == |t.syms|;
      (t.nextDataAddr, t')
  }

  /** The empty table is valid, and `sym_add` keeps every table valid. */
  lemma EmptyValid()
    ensures Valid(EmptyTable)
  {
  }

  lemma AddPreservesValid(t: SymTable, name: string)
    ensures Valid(t) ==> Valid(Add(t, name).1)
  {
    if Valid(t) && name !in Names(t) {
      var t' := Add(t, name).1;
      forall j, k | 0 <= j < k < |t'.syms| ensures t'.syms[j].name != t'.syms[k].name {
        if k == |t.syms| {
          assert t'.syms[j] == t.syms[j];
          assert t.syms[j].name in Names(t);
        } else {
          assert t'.syms[j] == t.syms[j] && t'.syms[k] == t.syms[k];
        }
      }
    }
  }

  /** In a valid table the lookup of an entry's name finds that entry, so
      the k-th declared variable is at DataBase + k. */
  lemma {:induction false} ValidLookup(t: SymTable, k: nat)
    requires Valid(t) && k < |t.syms|
    ensures GetAddr(t, t.syms[k].name) == DataBase + k
  {
    var j := FindFrom(t.syms, t.syms[k].name, 0);
    assert j != -1;
    assert t.syms[j].name == t.syms[k].name;
  }

  /** Adding a name twice is the same as adding it once: the second call
      returns the first call's address and changes nothing. */
  lemma AddIdempotent(t: SymTable, name: string)
    ensures var (a, t1) := Add(t, name);
      Add(t1, name) == (a, t1)
  {
  }

  /** Adding one name does not change where any other name is found. */
  lemma AddKeepsOthers(t: SymTable, name: string, other: string)
    requires other != name
    ensures GetAddr(Add(t, name).1, other) == GetAddr(t, other)
  {
    var t' := Add(t, name).1;
    if name !in Names(t) {
      var k := FindFrom(t.syms, other, 0);
      var k' := FindFrom(t'.syms, other, 0);
      assert forall j :: 0 <= j < |t.syms| ==> t'.syms[j] == t.syms[j];
      assert t'.syms[|t.syms|].name != other;
      if k == -1 {
        assert k' == -1;
      } else {
        assert t'.syms[k].name == other;
        assert k' == k;
      }
    }
  }
}
