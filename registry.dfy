/**
 * The option registry. A definition object that several names share is
 * modelled by an arena: `defs` maps a `DefId` handle to the definition and
 * `aliases` maps every name to a handle, so updating a shared definition in
 * place is updating one slot of `defs`.
 */
module Registries {
  import opened OptionNames

  type DefId = nat

  /** `paramType`: a long name (prefix stripped) and the number of arguments the option takes. */
  datatype Def = Def(name: string, numArgs: nat)

  /** The lookup part of the parser's state: names to handles, handles to definitions. */
  datatype Registry = Registry(aliases: map<string, DefId>, defs: map<DefId, Def>) {
    /** Every key is a non-empty name bound to a live definition, and every definition has a name. */
    ghost predicate Valid() {
      && (forall k :: k in aliases ==> k != "" && aliases[k] in defs)
      && (forall id :: id in defs ==> defs[id].name != "")
    }

    /** No key and no long name starts with a dash (each was declared with at most two). */
    ghost predicate PlainNames() {
      && (forall k :: k in aliases ==> !IsOption(k))
      && (forall id :: id in defs ==> !IsOption(defs[id].name))
    }
  }

  /**
   * `getLongOptionName`: the long name of the definition an alias resolves
   * to, or "" when the (normalised) alias is not registered.
   */
  function LongName(reg: Registry, alias: string): (r: string)
    requires reg.Valid()
    ensures r != "" <==> GetOptionName(alias) in reg.aliases
    ensures r != "" ==> r == reg.defs[reg.aliases[GetOptionName(alias)]].name
  {
    var a := GetOptionName(alias);
    if |a| > 0 && a in reg.aliases then reg.defs[reg.aliases[a]].name else ""
  }

  function NonEmpty(names: seq<string>): set<string> {
    set a | a in names && a != ""
  }

  /** `m` with every non-empty name in `names` bound to `id`, in order. */
  function Bind(m: map<string, DefId>, names: seq<string>, id: DefId): map<string, DefId>
  {
    if names == [] then m
    else
      var r := Bind(m, names[..|names| - 1], id);
      var a := names[|names| - 1];
      if a != "" then r[a := id] else r
  }

  /** The bindings `Bind` makes: the non-empty names go to `id`, every other key keeps its handle. */
  lemma {:induction false} BindEntries(m: map<string, DefId>, names: seq<string>, id: DefId)
    ensures Bind(m, names, id).Keys == m.Keys + NonEmpty(names)
    ensures forall k :: k in NonEmpty(names) ==> Bind(m, names, id)[k] == id
    ensures forall k :: k in m && k !in NonEmpty(names) ==> Bind(m, names, id)[k] == m[k]
  {
    if names != [] {
      var init := names[..|names| - 1];
      BindEntries(m, init, id);
      assert names == init + [names[|names| - 1]];
      assert NonEmpty(names) == NonEmpty(init) + (if names[|names| - 1] != "" then {names[|names| - 1]} else {});
    }
  }

  /** Every key outside the removed definition's bindings, unchanged. */
  function Unbind(m: map<string, DefId>, id: DefId): (r: map<string, DefId>)
    ensures forall k :: k in r <==> k in m && m[k] != id
    ensures forall k :: k in r ==> r[k] == m[k]
  {
    map k | k in m && m[k] != id :: m[k]
  }

  /** The sequence without its first occurrence of `x`. */
  function Without(s: seq<DefId>, x: DefId): seq<DefId>
  {
    if s == [] then []
    else if s[0] == x then s[1..]
    else [s[0]] + Without(s[1..], x)
  }

  /** Removing the first occurrence at index `i` closes the gap, keeping the order of the rest. */
  lemma {:induction false} WithoutAt(s: seq<DefId>, x: DefId, i: nat)
    requires i < |s| && s[i] == x
    requires forall j :: 0 <= j < i ==> s[j] != x
    ensures Without(s, x) == s[..i] + s[i + 1..]
  {
    if i > 0 {
      WithoutAt(s[1..], x, i - 1);
      assert s[1..][..i - 1] == s[1..i];
      assert s[1..][i..] == s[i + 1..];
      assert s[..i] == [s[0]] + s[1..i];
    }
  }

  /** The registry part of the parser: definitions in insertion order, the lookup maps, the next fresh handle. */
  datatype Table = Table(definitions: seq<DefId>, aliases: map<string, DefId>, defs: map<DefId, Def>, nextId: DefId) {
    function Reg(): Registry {
      Registry(aliases, defs)
    }

    /**
     * Names are bound to live definitions; `definitions` lists every live
     * handle exactly once; every handle was handed out before `nextId`.
     */
    ghost predicate Valid() {
      && Reg().Valid()
      && (forall i :: 0 <= i < |definitions| ==> definitions[i] in defs)
      && (forall id :: id in defs ==> id in definitions && id < nextId)
      && (forall i, j :: 0 <= i < j < |definitions| ==> definitions[i] != definitions[j])
    }
  }

  /**
   * `AddParameter` on a non-empty, prefix-stripped name and normalised
   * aliases: the definition already bound to the name is updated in place
   * (or a new one is appended), then the name and every non-empty alias are
   * bound to it.
   */
  function AddSpec(t: Table, n: string, names: seq<string>, arity: nat): Table
    requires t.Valid() && n != ""
  {
    var isNew := n !in t.aliases;
    var id := if isNew then t.nextId else t.aliases[n];
    var def := if isNew then Def(n, arity) else t.defs[id].(numArgs := arity);
    Table(if isNew then t.definitions + [id] else t.definitions,
          Bind(t.aliases[n := id], names, id),
          t.defs[id := def],
          if isNew then t.nextId + 1 else t.nextId)
  }

  /**
   * What adding means: the name and each non-empty alias now resolve to one
   * definition with the new arity; a known name keeps its definition, long
   * name and place, a new name gets a fresh definition at the end; names
   * not mentioned, other definitions and the order of definitions stay.
   */
  lemma {:induction false} AddSpecBinds(t: Table, n: string, names: seq<string>, arity: nat)
    requires t.Valid() && n != ""
    ensures var r := AddSpec(t, n, names, arity);
      && n in r.aliases && r.aliases[n] in r.defs
      && var id := r.aliases[n];
      && r.defs[id].numArgs == arity
      && (forall a :: a in names && a != "" ==> a in r.aliases && r.aliases[a] == id)
      && r.aliases.Keys == t.aliases.Keys + {n} + NonEmpty(names)
      && (forall k :: k in t.aliases && k != n && k !in names ==> r.aliases[k] == t.aliases[k])
      && (forall other :: other in t.defs && other != id ==> other in r.defs && r.defs[other] == t.defs[other])
      && (n in t.aliases ==> id == t.aliases[n] && r.defs[id].name == t.defs[id].name && r.definitions == t.definitions)
      && (n !in t.aliases ==> id !in t.defs && r.defs[id].name == n && r.definitions == t.definitions + [id])
  {
    var id := if n !in t.aliases then t.nextId else t.aliases[n];
    BindEntries(t.aliases[n := id], names, id);
    assert n !in NonEmpty(names) ==> n in t.aliases[n := id];
  }

  /** Adding keeps the table consistent. */
  lemma {:induction false} AddSpecValid(t: Table, n: string, names: seq<string>, arity: nat)
    requires t.Valid() && n != ""
    ensures AddSpec(t, n, names, arity).Valid()
  {
    var r := AddSpec(t, n, names, arity);
    var id := if n !in t.aliases then t.nextId else t.aliases[n];
    BindEntries(t.aliases[n := id], names, id);
    forall k | k in r.aliases ensures k != "" && r.aliases[k] in r.defs {
      if k !in NonEmpty(names) && k != n {
        assert k in t.aliases;
      }
    }
    if n !in t.aliases {
      assert id !in t.definitions;
      forall i | 0 <= i < |r.definitions| ensures r.definitions[i] in r.defs {
        if i < |t.definitions| {
          assert r.definitions[i] == t.definitions[i];
        }
      }
      forall x | x in r.defs ensures x in r.definitions && x < r.nextId {
        if x != id {
          assert x in t.definitions;
        }
        assert r.definitions[|r.definitions| - 1] == id;
      }
    }
  }

  /**
   * `RemoveParameter` on a bound name: its definition leaves the list and
   * the arena, and every name bound to it is unbound.
   */
  function RemoveSpec(t: Table, n: string): Table
    requires t.Valid() && n in t.aliases
  {
    var id := t.aliases[n];
    Table(Without(t.definitions, id), Unbind(t.aliases, id), t.defs - {id}, t.nextId)
  }

  /**
   * What removing means: the definition is gone and no name resolves to it
   * (the removed name included); it left the list at the one place it had,
   * the rest keep their order; every other binding and every other
   * definition is as it was, and no handle is reused.
   */
  lemma {:induction false} RemoveSpecUnbinds(t: Table, n: string)
    requires t.Valid() && n in t.aliases
    ensures var r := RemoveSpec(t, n);
      var id := t.aliases[n];
      && id !in r.defs && n !in r.aliases
      && r.defs.Keys == t.defs.Keys - {id}
      && (forall other :: other in t.defs && other != id ==> other in r.defs && r.defs[other] == t.defs[other])
      && r.nextId == t.nextId
      && (forall k :: k in r.aliases ==> r.aliases[k] != id)
      && (forall k :: k in t.aliases && t.aliases[k] != id ==> k in r.aliases && r.aliases[k] == t.aliases[k])
      && (exists i :: 0 <= i < |t.definitions| && t.definitions[i] == id
                      && r.definitions == t.definitions[..i] + t.definitions[i + 1..])
  {
    var id := t.aliases[n];
    DropDefinition(t.defs, id);
    CutOnce(t.definitions, id);
  }

  /** The arena without one handle: every other slot is as it was. */
  lemma DropDefinition(defs: map<DefId, Def>, id: DefId)
    ensures id !in defs - {id} && (defs - {id}).Keys == defs.Keys - {id}
    ensures forall other :: other in defs && other != id ==> other in defs - {id} && (defs - {id})[other] == defs[other]
  {
  }

  /** A handle listed once leaves its one place, the rest closing up in order. */
  lemma CutOnce(s: seq<DefId>, id: DefId)
    requires id in s && forall i, j :: 0 <= i < j < |s| ==> s[i] != s[j]
    ensures exists i :: 0 <= i < |s| && s[i] == id && Without(s, id) == s[..i] + s[i + 1..]
  {
    var i :| 0 <= i < |s| && s[i] == id;
    WithoutAt(s, id, i);
  }

  /** Cutting one element out of a sequence without repetitions: what is left is the rest, without repetitions. */
  lemma {:induction false} CutDistinct(s: seq<DefId>, i: nat)
    requires i < |s|
    requires forall a, b :: 0 <= a < b < |s| ==> s[a] != s[b]
    ensures var c := s[..i] + s[i + 1..];
      && (forall a, b :: 0 <= a < b < |c| ==> c[a] != c[b])
      && (forall a :: 0 <= a < |c| ==> c[a] in s && c[a] != s[i])
      && (forall x :: x in s && x != s[i] ==> x in c)
  {
    var c := s[..i] + s[i + 1..];
    assert forall a :: 0 <= a < |c| ==> c[a] == s[if a < i then a else a + 1];
    forall x | x in s && x != s[i] ensures x in c {
      var j :| 0 <= j < |s| && s[j] == x;
      assert c[if j < i then j else j - 1] == x;
    }
  }

  /** Cutting a listed handle out of the list and the arena keeps the list and the arena in step. */
  lemma CutKeepsArena(s: seq<DefId>, defs: map<DefId, Def>, i: nat, nextId: DefId)
    requires i < |s| && forall a, b :: 0 <= a < b < |s| ==> s[a] != s[b]
    requires forall j :: 0 <= j < |s| ==> s[j] in defs
    requires forall x :: x in defs ==> x in s && x < nextId
    ensures var c := s[..i] + s[i + 1..];
      && (forall a, b :: 0 <= a < b < |c| ==> c[a] != c[b])
      && (forall j :: 0 <= j < |c| ==> c[j] in defs - {s[i]})
      && (forall x :: x in defs - {s[i]} ==> x in c && x < nextId)
  {
    CutDistinct(s, i);
  }

  /** Removing keeps the table consistent. */
  lemma {:induction false} RemoveSpecValid(t: Table, n: string)
    requires t.Valid() && n in t.aliases
    ensures RemoveSpec(t, n).Valid()
  {
    RemoveKeepsBindings(t, n);
    RemoveKeepsList(t, n);
  }

  /** After removal every name is still bound to a live definition. */
  lemma RemoveKeepsBindings(t: Table, n: string)
    requires t.Valid() && n in t.aliases
    ensures RemoveSpec(t, n).Reg().Valid()
  {
    var r := RemoveSpec(t, n);
    forall k | k in r.aliases ensures k != "" && r.aliases[k] in r.defs {
      assert k in t.aliases && t.aliases[k] != t.aliases[n];
    }
  }

  /** After removal the list still holds every live handle once, each below `nextId`. */
  lemma RemoveKeepsList(t: Table, n: string)
    requires t.Valid() && n in t.aliases
    ensures var r := RemoveSpec(t, n);
      && (forall i :: 0 <= i < |r.definitions| ==> r.definitions[i] in r.defs)
      && (forall id :: id in r.defs ==> id in r.definitions && id < r.nextId)
      && (forall i, j :: 0 <= i < j < |r.definitions| ==> r.definitions[i] != r.definitions[j])
  {
    var id := t.aliases[n];
    var i :| 0 <= i < |t.definitions| && t.definitions[i] == id;
    WithoutAt(t.definitions, id, i);
    CutKeepsArena(t.definitions, t.defs, i, t.nextId);
  }
}
