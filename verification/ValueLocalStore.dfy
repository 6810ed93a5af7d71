/**
 Cached values in reference-counted locals. A local is bound to one entry, or unbound but kept by handles, or free;
 a local that somebody holds a handle on is never overwritten and never handed to another value.
 */
module ValueLocalStore {
  import opened X86Types
  import opened Ir
  import opened RegisterValues

  datatype CachedValue = CachedValue(local: Option<nat>, available: bool)

  datatype CachedLocal = CachedLocal(ownerCount: int, entry: Option<Tree>)

  // Each live handle remembers its local and the value it was captured for.
  datatype Handle = Handle(local: nat, value: Word)

  function Holders(live: map<nat, Handle>, local: nat): set<nat> {
    set h <- live | live[h].local == local
  }

  datatype Store = Store(
    entries: map<Tree, CachedValue>, locals: map<nat, CachedLocal>, free: seq<nat>, live: map<nat, Handle>,
    contents: map<nat, Word>)
  {
    ghost predicate Bound() {
      && (forall key <- entries :: entries[key].local.Some? ==>
            entries[key].local.value in locals && locals[entries[key].local.value].entry == Some(key))
      && (forall l <- locals :: locals[l].entry.Some? ==>
            locals[l].entry.value in entries && entries[locals[l].entry.value].local == Some(l))
    }

    /** The owner count of a local is the number of its unreleased handles. */
    ghost predicate Counted() {
      && (forall l <- locals :: locals[l].ownerCount == |Holders(live, l)|)
      && (forall h <- live :: live[h].local in locals)
    }

    predicate IsFree(l: nat) {
      l in locals && locals[l].entry.None? && locals[l].ownerCount == 0
    }

    /** Every local is bound, or held, or on the free list exactly once. */
    ghost predicate Listed() {
      && (forall l :: l in free <==> IsFree(l))
      && (forall i, j | 0 <= i < j < |free| :: free[i] != free[j])
    }

    /** Available entries hold their value, and an entry without its value is held by nobody. */
    ghost predicate Filled(regs: Regs) {
      && locals.Keys <= contents.Keys
      && (forall key <- entries ::
            if entries[key].available then
              entries[key].local.Some? && entries[key].local.value in contents &&
              contents[entries[key].local.value] == EvalTree(key, regs)
            else
              entries[key].local.Some? && entries[key].local.value in locals ==>
              locals[entries[key].local.value].ownerCount == 0)
    }

    /** Whoever holds a handle still finds the value it captured. */
    ghost predicate Promised() {
      forall h <- live :: live[h].local in contents && contents[live[h].local] == live[h].value
    }

    ghost predicate Ok(regs: Regs) {
      Bound() && Counted() && Listed() && Filled(regs) && Promised()
    }

    function Bind(key: Tree, l: nat, rest: seq<nat>): Store
      requires key in entries
    {
      var count := if l in locals then locals[l].ownerCount else 0;
      this.(entries := entries[key := CachedValue(Some(l), false)], locals := locals[l := CachedLocal(count, Some(key))],
      free := rest, contents := if l in contents then contents else contents[l := 0])
    }

    /** Give an unbound entry a free local, or a new one. */
    lemma BindOk(regs: Regs, key: Tree, l: nat, rest: seq<nat>)
      requires Ok(regs) && key in entries && entries[key].local.None?
      requires (free != [] && l == free[|free| - 1] && rest == free[..|free| - 1]) ||
               (free == [] && l !in locals && rest == [])
      ensures Bind(key, l, rest).Ok(regs)
      ensures Bind(key, l, rest).locals[l].ownerCount == 0
    {
      hide EvalTree;
      var after := Bind(key, l, rest);
      assert l in locals ==> free[|free| - 1] in free;
      assert l !in locals ==> Holders(live, l) == {};
      assert after.Counted();
      assert after.Bound();
      ListedAfterPop(key, l, rest);
    }

    lemma ListedAfterPop(key: Tree, l: nat, rest: seq<nat>)
      requires Listed() && key in entries
      requires (free != [] && l == free[|free| - 1] && rest == free[..|free| - 1]) ||
               (free == [] && l !in locals && rest == [])
      ensures Bind(key, l, rest).Listed()
    {
      var after := Bind(key, l, rest);
      forall x ensures x in rest <==> after.IsFree(x) {
        if x in free {
          var i :| 0 <= i < |free| && free[i] == x;
          if i < |free| - 1 { assert x == rest[i]; }
        }
        if x in rest {
          var i :| 0 <= i < |rest| && rest[i] == x;
          assert x == free[i] && free[i] != free[|free| - 1];
        }
      }
    }

    /** The entry's value has been emitted into its local. */
    function Fill(key: Tree, value: Word): Store
      requires key in entries && entries[key].local.Some?
    {
      this.(entries := entries[key := entries[key].(available := true)],
      contents := contents[entries[key].local.value := value])
    }

    lemma FillOk(regs: Regs, key: Tree)
      requires Ok(regs) && key in entries && entries[key].local.Some? && !entries[key].available
      ensures Fill(key, EvalTree(key, regs)).Ok(regs)
    {
      hide EvalTree;
      var l, after := entries[key].local.value, Fill(key, EvalTree(key, regs));
      NobodyHolds(l);
      assert after.Bound();
      assert after.Counted();
      assert forall x :: after.IsFree(x) == IsFree(x);
    }

    lemma NobodyHolds(l: nat)
      requires Counted() && l in locals && locals[l].ownerCount == 0
      ensures forall h <- live :: live[h].local != l
    {
      assert forall h <- live :: live[h].local == l ==> h in Holders(live, l);
    }

    function AddHandle(h: nat, l: nat, value: Word): Store
      requires l in locals
    {
      this.(live := live[h := Handle(l, value)], locals := locals[l := locals[l].(ownerCount := locals[l].ownerCount + 1)])
    }

    lemma AddHandleOk(regs: Regs, h: nat, l: nat, value: Word)
      requires Ok(regs) && h !in live && l in locals && contents[l] == value
      requires locals[l].ownerCount > 0 || (locals[l].entry.Some? && entries[locals[l].entry.value].available)
      ensures AddHandle(h, l, value).Ok(regs)
    {
      hide EvalTree, Store.Counted, Store.Bound, Holders;
      AddHandleCounted(h, l, value);
      SameEntries(AddHandle(h, l, value));
      CountsArePositive();
      var after := AddHandle(h, l, value);
      assert forall x :: after.IsFree(x) == IsFree(x);
    }

    lemma AddHandleCounted(h: nat, l: nat, value: Word)
      requires Counted() && h !in live && l in locals
      ensures AddHandle(h, l, value).Counted()
    {
      var after := AddHandle(h, l, value);
      assert Holders(after.live, l) == Holders(live, l) + {h};
      assert forall x :: x != l ==> Holders(after.live, x) == Holders(live, x);
    }

    lemma CountsArePositive()
      requires Counted()
      ensures forall l <- locals :: locals[l].ownerCount >= 0
    {
      hide Holders;
    }

    /** Owner counts and contents do not matter to which entry a local is bound to. */
    lemma SameEntries(after: Store)
      requires Bound() && after.entries == entries && after.locals.Keys == locals.Keys
      requires forall l <- locals :: after.locals[l].entry == locals[l].entry
      ensures after.Bound()
    {
    }

    function DropHandle(h: nat): Store
      requires h in live && live[h].local in locals
    {
      var l := live[h].local;
      var count := locals[l].ownerCount - 1;
      this.(live := live - {h}, locals := locals[l := locals[l].(ownerCount := count)],
      free := if count == 0 && locals[l].entry.None? then free + [l] else free)
    }

    lemma DropHandleOk(regs: Regs, h: nat)
      requires Ok(regs) && h in live
      ensures live[h].local in locals && locals[live[h].local].ownerCount > 0
      ensures DropHandle(h).Ok(regs)
    {
      hide EvalTree, Store.Counted, Store.Bound, Holders;
      DropHandleCounted(h);
      var l, after := live[h].local, DropHandle(h);
      SameEntries(after);
      assert !IsFree(l);
      forall x ensures x in after.free <==> after.IsFree(x) {
        assert x in free <==> IsFree(x);
      }
    }

    lemma DropHandleCounted(h: nat)
      requires Counted() && h in live
      ensures live[h].local in locals && locals[live[h].local].ownerCount > 0
      ensures DropHandle(h).Counted()
    {
      var l, after := live[h].local, DropHandle(h);
      assert h in Holders(live, l);
      assert Holders(after.live, l) == Holders(live, l) - {h};
      assert forall x :: x != l ==> Holders(after.live, x) == Holders(live, x);
    }

    /** The entry's value is no longer current. A held local is left to its holders. */
    function Forget(key: Tree): Store
      requires key in entries && (entries[key].local.Some? ==> entries[key].local.value in locals)
    {
      var local := entries[key].local;
      if local.Some? && locals[local.value].ownerCount != 0 then
        this.(entries := entries[key := CachedValue(None, false)],
        locals := locals[local.value := locals[local.value].(entry := None)])
      else this.(entries := entries[key := entries[key].(available := false)])
    }

    lemma ForgetOk(regs: Regs, key: Tree)
      requires Ok(regs) && key in entries
      ensures entries[key].local.Some? ==> entries[key].local.value in locals
      ensures Forget(key).Ok(regs) && !Forget(key).entries[key].available && Forget(key).entries.Keys == entries.Keys
    {
      hide EvalTree;
      var after := Forget(key);
      assert after.Bound();
      assert after.Counted();
      assert forall x :: after.IsFree(x) == IsFree(x);
    }

    lemma EntryParts(regs: Regs, key: Tree)
      requires Ok(regs) && key in entries
      ensures entries[key].local.Some? ==>
                entries[key].local.value in locals && locals[entries[key].local.value].entry == Some(key) &&
                entries[key].local.value in contents
      ensures entries[key].available ==> entries[key].local.Some?
    {
    }

    lemma FreeParts(regs: Regs, l: nat)
      requires Ok(regs) && l in free
      ensures l in locals && IsFree(l)
    {
    }

    lemma BindShape(key: Tree, l: nat, rest: seq<nat>)
      requires key in entries
      ensures
        var after := Bind(key, l, rest);
        && after.entries == entries[key := CachedValue(Some(l), false)] && after.locals.Keys == locals.Keys + {l}
        && l in after.locals && after.locals[l].entry == Some(key) && l in after.contents && after.live == live
    {
    }

    lemma AvailableHolds(regs: Regs, key: Tree)
      requires Ok(regs) && key in entries && entries[key].available
      ensures entries[key].local.Some? && entries[key].local.value in contents
      ensures contents[entries[key].local.value] == EvalTree(key, regs)
    {
    }

    lemma FillShape(key: Tree, value: Word)
      requires key in entries && entries[key].local.Some?
      ensures Fill(key, value) ==
              this.(entries := entries[key := entries[key].(available := true)],
              contents := contents[entries[key].local.value := value])
    {
    }

    lemma HandleParts(regs: Regs, h: nat)
      requires Ok(regs) && h in live
      ensures live[h].local in locals && live[h].local in contents && contents[live[h].local] == live[h].value
      ensures locals[live[h].local].ownerCount > 0
    {
      DropHandleCounted(h);
    }

    lemma ForgetShape(key: Tree)
      requires key in entries && (entries[key].local.Some? ==> entries[key].local.value in locals)
      ensures
        var after := Forget(key);
        && after.entries.Keys == entries.Keys && after.locals.Keys == locals.Keys
        && after == this.(entries := after.entries, locals := after.locals)
        && !after.entries[key].available
        && forall other <- entries :: other != key ==> after.entries[other] == entries[other]
    {
    }

    /** Writing a register keeps every value that does not use it. */
    lemma WriteOk(regs: Regs, reg: Reg, value: Word)
      requires Ok(regs) && forall key <- entries :: UsesReg(key, reg) ==> !entries[key].available
      ensures Ok(regs[reg := value])
    {
      forall key <- entries | entries[key].available
        ensures EvalTree(key, regs[reg := value]) == EvalTree(key, regs)
      {
        TreeReadsItsRegs(key, regs, regs[reg := value]);
      }
    }
  }

  class JitValueLocalStore {
    var entries: map<Tree, CachedValue>
    var locals: map<nat, CachedLocal>
    var freeLocals: seq<nat>
    var live: map<nat, Handle>
    var contents: map<nat, Word>
    var nextLocal: nat
    var nextHandle: nat

    // The registers that cached values are about.
    ghost var regs: Regs

    ghost function View(): Store
      reads this
    {
      Store(entries, locals, freeLocals, live, contents)
    }

    ghost predicate Valid()
      reads this
    {
      && View().Ok(regs)
      && (forall l <- locals :: l < nextLocal) && (forall h <- live :: h < nextHandle)
    }

    constructor (selected: set<Tree>, ghost start: Regs)
      ensures Valid() && entries.Keys == selected && regs == start && live == map[]
    {
      entries := map key <- selected :: CachedValue(None, false);
      locals, freeLocals, live, contents, nextLocal, nextHandle := map[], [], map[], map[], 0, 0;
      regs := start;
    }

    /** The local of an entry, taken from the free list or allocated when it has none. */
    method LocalForEntry(key: Tree) returns (l: nat)
      requires Valid() && key in entries
      modifies `entries, `locals, `freeLocals, `contents, `nextLocal
      ensures Valid() && entries.Keys == old(entries.Keys)
      ensures key in entries && entries[key] == old(entries)[key].(local := Some(l))
      ensures l in locals && locals[l].entry == Some(key) && l in contents
      ensures nextLocal == old(nextLocal) + if old(entries)[key].local.None? && old(freeLocals) == [] then 1 else 0
    {
      hide Store.Bound, Store.Counted, Store.Listed, Store.Filled, Store.Promised, Store.Bind;
      View().EntryParts(regs, key);
      if entries[key].local.Some? {
        return entries[key].local.value;
      }
      var rest: seq<nat> := [];
      if freeLocals != [] {
        l, rest := freeLocals[|freeLocals| - 1], freeLocals[..|freeLocals| - 1];
        View().FreeParts(regs, l);
      } else {
        l := nextLocal;
        nextLocal := nextLocal + 1;
      }
      View().BindOk(regs, key, l, rest);
      View().BindShape(key, l, rest);
      var bound := Store(entries, locals, freeLocals, live, contents).Bind(key, l, rest);
      entries, locals, freeLocals, contents := bound.entries, bound.locals, bound.free, bound.contents;
    }

    /** Make sure an entry's value sits in its local, emitting it unless it already does. */
    method EnsureAvailable(key: Tree, value: Word) returns (l: nat, emitted: bool)
      requires Valid() && key in entries && value == EvalTree(key, regs)
      modifies `entries, `locals, `freeLocals, `contents, `nextLocal
      ensures Valid() && entries.Keys == old(entries.Keys)
      ensures l in locals && l in contents && contents[l] == value
      ensures locals[l].entry == Some(key) && key in entries && entries[key] == CachedValue(Some(l), true)
      ensures emitted <==> !old(entries)[key].available
    {
      hide Store.Bound, Store.Counted, Store.Listed, Store.Filled, Store.Promised, EvalTree, Store.Fill;
      l := LocalForEntry(key);
      emitted := !entries[key].available;
      if !emitted {
        View().AvailableHolds(regs, key);
        return;
      }
      View().FillOk(regs, key);
      View().FillShape(key, value);
      entries := entries[key := entries[key].(available := true)];
      contents := contents[l := value];
    }

    /** Use a value: from its local if it is available there, otherwise by emitting its own code. */
    method EmitForUseWithLocal(key: Tree, value: Word) returns (result: Word, local: Option<nat>, emitted: bool)
      requires Valid() && value == EvalTree(key, regs)
      modifies `entries, `locals, `freeLocals, `contents, `nextLocal
      ensures Valid() && result == value && entries.Keys == old(entries.Keys)
      ensures local.Some? <==> key in entries
      ensures local.Some? ==> local.value in contents && contents[local.value] == value
      ensures emitted <==> key !in old(entries) || !old(entries)[key].available
      ensures local.Some? ==> key in entries && entries[key].available
    {
      if key !in entries {
        return value, None, true;
      }
      var l;
      l, emitted := EnsureAvailable(key, value);
      result, local := contents[l], Some(l);
    }

    /** Keep a cached value for later: the handle's local holds the value until the handle is released. */
    method CaptureForReuse(key: Tree, value: Word) returns (handle: Option<nat>, emitted: bool)
      requires Valid() && value == EvalTree(key, regs)
      modifies `entries, `locals, `freeLocals, `contents, `nextLocal, `live, `nextHandle
      ensures Valid() && entries.Keys == old(entries.Keys)
      ensures handle.Some? <==> key in entries
      ensures handle.Some? ==> handle.value == old(nextHandle) && handle.value in live && live[handle.value].value == value
      ensures live.Keys == old(live.Keys) + (if handle.Some? then {handle.value} else {})
      ensures forall h <- old(live) :: live[h] == old(live)[h]
      ensures emitted <==> key in old(entries) && !old(entries)[key].available
      ensures handle.Some? ==> entries[key].available
    {
      hide Store.Bound, Store.Counted, Store.Listed, Store.Filled, Store.Promised, EvalTree;
      if key !in entries {
        return None, false;
      }
      var l;
      l, emitted := EnsureAvailable(key, value);
      View().AddHandleOk(regs, nextHandle, l, value);
      handle := Some(nextHandle);
      AddHandle(l, value);
    }

    method AddHandle(l: nat, value: Word)
      requires Valid() && l in locals && View().AddHandle(nextHandle, l, value).Ok(regs)
      modifies `locals, `live, `nextHandle
      ensures Valid() && View() == old(View()).AddHandle(old(nextHandle), l, value)
    {
      hide Store.Ok;
      live := live[nextHandle := Handle(l, value)];
      locals := locals[l := locals[l].(ownerCount := locals[l].ownerCount + 1)];
      nextHandle := nextHandle + 1;
    }

    /** A second handle on the same local; refused once the handle has been released. */
    method Retain(h: nat) returns (another: Option<nat>)
      requires Valid()
      modifies `locals, `live, `nextHandle
      ensures Valid() && (another.Some? <==> h in old(live))
      ensures another.Some? ==> another.value !in old(live) && another.value in live
      ensures another.Some? ==> h in live && live[another.value] == live[h]
      ensures live.Keys == old(live.Keys) + (if another.Some? then {another.value} else {})
      ensures forall x <- old(live) :: live[x] == old(live)[x]
    {
      hide Store.Bound, Store.Counted, Store.Listed, Store.Filled, Store.Promised;
      if h !in live {
        return None;
      }
      View().HandleParts(regs, h);
      View().AddHandleOk(regs, nextHandle, live[h].local, live[h].value);
      another := Some(nextHandle);
      AddHandle(live[h].local, live[h].value);
    }

    /** Give a handle back; a second release is refused, and the owner count never becomes negative. */
    method Release(h: nat) returns (ok: bool)
      requires Valid()
      modifies `locals, `live, `freeLocals
      ensures Valid() && (ok <==> h in old(live))
      ensures live == old(live) - {h}
    {
      hide Store.Bound, Store.Counted, Store.Listed, Store.Filled, Store.Promised;
      ok := h in live;
      if !ok {
        return;
      }
      View().DropHandleOk(regs, h);
      var l := live[h].local;
      var count := locals[l].ownerCount - 1;
      live := live - {h};
      if count == 0 && locals[l].entry.None? {
        freeLocals := freeLocals + [l];
      }
      locals := locals[l := locals[l].(ownerCount := count)];
    }

    /** A register is written: exactly the values that use it are no longer cached, and the others stay correct. */
    method NotifyWrite(reg: Reg, ghost value: Word)
      requires Valid()
      modifies `entries, `locals, `regs
      ensures Valid() && regs == old(regs)[reg := value] && entries.Keys == old(entries.Keys)
      ensures forall key <- entries :: entries[key].available == (old(entries)[key].available && !UsesReg(key, reg))
    {
      hide Store.Ok;
      ForgetWhere(key => UsesReg(key, reg));
      View().WriteOk(regs, reg, value);
      regs := regs[reg := value];
    }

    /**
     The entries a predicate picks are no longer available, and give up a local that somebody still holds; the others
     stay as they are.
     */
    method ForgetWhere(picks: Tree -> bool)
      requires Valid()
      modifies `entries, `locals
      ensures Valid() && entries.Keys == old(entries.Keys)
      ensures forall key <- entries :: if picks(key) then !entries[key].available else entries[key] == old(entries)[key]
    {
      hide Store.Ok, Store.Forget;
      var rest := set key <- entries | picks(key);
      while rest != {}
        invariant Valid() && entries.Keys == old(entries.Keys) && rest <= entries.Keys
        invariant forall key <- rest :: picks(key)
        invariant forall key <- entries ::
                    if picks(key) && key !in rest then !entries[key].available else picks(key) || entries[key] == old(entries)[key]
        decreases rest
      {
        var key :| key in rest;
        View().ForgetOk(regs, key);
        View().ForgetShape(key);
        var after := Store(entries, locals, freeLocals, live, contents).Forget(key);
        entries, locals := after.entries, after.locals;
        rest := rest - {key};
      }
    }
  }
}
