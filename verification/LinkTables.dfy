/**
 Links between compiled blocks. Each block's module has a table with one slot per static target; a slot holds the
 target block's function while that block is cached, and the module's own fallback otherwise.
 */
module LinkTables {
  import opened X86Types

  // A callable function, by identity.
  datatype Fn = Fn(id: nat)

  datatype SlotEntry = SlotEntry(slot: nat, fallback: Option<Fn>, installed: Option<Fn>)

  class JitModuleLinkTable {
    var table: seq<Option<Fn>>
    var slotsByTargetEip: map<Word, SlotEntry>

    /** Every target has a slot of its own, which holds the installed function or else the fallback. */
    ghost predicate Valid()
      reads this
    {
      && (forall eip <- slotsByTargetEip :: slotsByTargetEip[eip].slot < |table|)
      && (forall a <- slotsByTargetEip, b <- slotsByTargetEip ::
            a != b ==> slotsByTargetEip[a].slot != slotsByTargetEip[b].slot)
      && (forall eip <- slotsByTargetEip :: table[slotsByTargetEip[eip].slot] == Holds(slotsByTargetEip[eip]))
    }

    static function Holds(entry: SlotEntry): Option<Fn> {
      if entry.installed.Some? then entry.installed else entry.fallback
    }

    constructor (targetEips: seq<Word>)
      ensures Valid() && slotsByTargetEip.Keys == (set eip | eip in targetEips)
      ensures forall eip <- slotsByTargetEip ::
                slotsByTargetEip[eip].fallback.None? && slotsByTargetEip[eip].installed.None?
      ensures |table| == |slotsByTargetEip|
    {
      var slots := NumberTargets(targetEips);
      table := seq(|slots|, _ => None);
      slotsByTargetEip := slots;
    }

    /** One slot per target, in the order of their first appearance. */
    static method NumberTargets(targetEips: seq<Word>) returns (slots: map<Word, SlotEntry>)
      ensures slots.Keys == set eip | eip in targetEips
      ensures forall eip <- slots :: slots[eip].slot < |slots| && slots[eip] == SlotEntry(slots[eip].slot, None, None)
      ensures forall a <- slots, b <- slots :: a != b ==> slots[a].slot != slots[b].slot
    {
      slots := map[];
      for i := 0 to |targetEips|
        invariant slots.Keys == set eip | eip in targetEips[..i]
        invariant forall eip <- slots :: slots[eip].slot < |slots| && slots[eip] == SlotEntry(slots[eip].slot, None, None)
        invariant forall a <- slots, b <- slots :: a != b ==> slots[a].slot != slots[b].slot
      {
        assert targetEips[..i + 1] == targetEips[..i] + [targetEips[i]];
        if targetEips[i] !in slots {
          slots := slots[targetEips[i] := SlotEntry(|slots|, None, None)];
        }
      }
    }

    method InstallModuleLocalFallback(eip: Word, fn: Fn)
      requires Valid() && eip in slotsByTargetEip
      modifies this
      ensures Valid() && slotsByTargetEip == old(slotsByTargetEip)[eip := old(slotsByTargetEip)[eip].(fallback := Some(fn))]
    {
      var entry := slotsByTargetEip[eip].(fallback := Some(fn));
      slotsByTargetEip := slotsByTargetEip[eip := entry];
      if entry.installed.None? {
        table := table[entry.slot := Some(fn)];
      }
    }

    method InstallTarget(eip: Word, fn: Fn)
      requires Valid() && eip in slotsByTargetEip
      modifies this
      ensures Valid() && slotsByTargetEip == old(slotsByTargetEip)[eip := old(slotsByTargetEip)[eip].(installed := Some(fn))]
    {
      var entry := slotsByTargetEip[eip].(installed := Some(fn));
      slotsByTargetEip := slotsByTargetEip[eip := entry];
      table := table[entry.slot := Some(fn)];
    }

    /** Restoring a fallback fails exactly when none was ever installed. */
    method InvalidateTarget(eip: Word) returns (ok: bool)
      requires Valid() && eip in slotsByTargetEip
      modifies this
      ensures ok <==> old(slotsByTargetEip)[eip].fallback.Some?
      ensures slotsByTargetEip == old(slotsByTargetEip)[eip := old(slotsByTargetEip)[eip].(installed := None)]
      ensures ok ==> Valid()
    {
      var entry := slotsByTargetEip[eip].(installed := None);
      slotsByTargetEip := slotsByTargetEip[eip := entry];
      if entry.fallback.None? {
        return false;
      }
      table := table[entry.slot := entry.fallback];
      ok := true;
    }
  }

  datatype Block = Block(fn: Fn, moduleLinkTable: Option<JitModuleLinkTable>)

  type Blocks = map<Word, Block>

  ghost function Tables(blocks: Blocks): set<JitModuleLinkTable> {
    set eip <- blocks | blocks[eip].moduleLinkTable.Some? :: blocks[eip].moduleLinkTable.value
  }

  /** What a slot should have installed: the function of the cached target, if it is cached. */
  function Current(blocks: Blocks, eip: Word): Option<Fn> {
    if eip in blocks then Some(blocks[eip].fn) else None
  }

  type Slots = map<Word, SlotEntry>

  type Dependents = map<Word, set<JitModuleLinkTable>>

  function DependentsOf(dependents: Dependents, eip: Word): set<JitModuleLinkTable> {
    if eip in dependents then dependents[eip] else {}
  }

  /** A compiled module as it leaves the compiler: every slot holds its fallback. */
  ghost predicate Fresh(slots: Slots) {
    forall eip <- slots :: slots[eip].fallback.Some? && slots[eip].installed.None?
  }

  ghost predicate LinkedTo(slots: Slots, blocks: Blocks) {
    forall eip <- slots :: slots[eip].fallback.Some? && slots[eip].installed == Current(blocks, eip)
  }

  /** What the tables of the cached blocks hold. */
  type Links = map<JitModuleLinkTable, Slots>

  /** The state of the cache: its blocks, the tables that depend on each target, and what those tables hold. */
  datatype State = State(blocks: Blocks, dependents: Dependents, links: Links)
  {
    ghost predicate OwnTables() {
      forall a <- blocks, b <- blocks ::
        a != b && blocks[a].moduleLinkTable.Some? ==> blocks[a].moduleLinkTable != blocks[b].moduleLinkTable
    }

    /** The dependents of a target are exactly the tables of cached blocks that have a slot for it. */
    ghost predicate Registered() {
      forall eip: Word, t <- links :: t in DependentsOf(dependents, eip) <==> eip in links[t]
    }

    ghost predicate OnlyCachedTables() {
      links.Keys == Tables(blocks) && forall eip: Word :: DependentsOf(dependents, eip) <= links.Keys
    }

    lemma OkParts()
      requires Ok()
      ensures OwnTables() && links.Keys == Tables(blocks)
    {
    }

    ghost predicate Ok() {
      OwnTables() && Registered() && OnlyCachedTables() && forall t <- links :: LinkedTo(links[t], blocks)
    }
  }

  /** Install a function in the slot of one target. */
  function Installed(slots: Slots, eip: Word, fn: Option<Fn>): Slots {
    if eip in slots then slots[eip := slots[eip].(installed := fn)] else slots
  }

  lemma LinkedAfterInstall(slots: Slots, blocks: Blocks, key: Word, block: Block)
    requires LinkedTo(slots, blocks) && key !in blocks
    ensures LinkedTo(Installed(slots, key, Some(block.fn)), blocks[key := block])
  {
  }

  lemma LinkedTwice(slots: Slots, blocks: Blocks, key: Word, block: Block)
    requires LinkedTo(slots, blocks[key := block])
    ensures LinkedTo(Installed(slots, key, Some(block.fn)), blocks[key := block])
  {
  }

  lemma LinkedAfterInvalidate(slots: Slots, blocks: Blocks, key: Word)
    requires LinkedTo(slots, blocks)
    ensures LinkedTo(Installed(slots, key, None), blocks - {key})
  {
  }

  /** Part-way through linking a new table: the targets still to do are unlinked. */
  ghost predicate Linking(before: Slots, slots: Slots, blocks: Blocks, rest: set<Word>) {
    && slots.Keys == before.Keys && rest <= slots.Keys
    && forall eip <- slots :: slots[eip] == before[eip].(installed := if eip in rest then None else Current(blocks, eip))
  }

  lemma LinkingStarts(slots: Slots, blocks: Blocks)
    requires Fresh(slots)
    ensures Linking(slots, slots, blocks, slots.Keys)
  {
  }

  lemma LinkingMore(before: Slots, slots: Slots, blocks: Blocks, rest: set<Word>, eip: Word)
    requires Linking(before, slots, blocks, rest) && eip in rest
    ensures Linking(before, Installed(slots, eip, Current(blocks, eip)), blocks, rest - {eip})
  {
  }

  lemma LinkingEnds(before: Slots, slots: Slots, blocks: Blocks)
    requires Linking(before, slots, blocks, {}) && Fresh(before)
    ensures LinkedTo(slots, blocks)
  {
  }

  /** Part-way through registering a table: the targets still to do do not list it. */
  ghost predicate Registering(was: Dependents, dependents: Dependents, targets: set<Word>, table: JitModuleLinkTable, rest: set<Word>) {
    forall eip: Word :: DependentsOf(dependents, eip) ==
                        DependentsOf(was, eip) + (if eip in targets && eip !in rest then {table} else {})
  }

  lemma RegisteringMore(
      was: Dependents, dependents: Dependents, targets: set<Word>, table: JitModuleLinkTable, rest: set<Word>, eip: Word)
    requires Registering(was, dependents, targets, table, rest) && eip in rest && rest <= targets
    ensures Registering(was, dependents[eip := DependentsOf(dependents, eip) + {table}], targets, table, rest - {eip})
  {
  }

  ghost predicate Unregistering(
      was: Dependents, dependents: Dependents, targets: set<Word>, table: JitModuleLinkTable, rest: set<Word>)
  {
    forall eip: Word :: DependentsOf(dependents, eip) ==
                        DependentsOf(was, eip) - (if eip in targets && eip !in rest then {table} else {})
  }

  function WithoutDependent(dependents: Dependents, eip: Word, table: JitModuleLinkTable): Dependents {
    if eip !in dependents then dependents
    else if dependents[eip] - {table} == {} then dependents - {eip}
    else dependents[eip := dependents[eip] - {table}]
  }

  lemma UnregisteringMore(
      was: Dependents, dependents: Dependents, targets: set<Word>, table: JitModuleLinkTable, rest: set<Word>, eip: Word)
    requires Unregistering(was, dependents, targets, table, rest) && eip in rest && rest <= targets
    ensures Unregistering(was, WithoutDependent(dependents, eip, table), targets, table, rest - {eip})
  {
  }

  ghost function TableOf(block: Block): set<JitModuleLinkTable> {
    if block.moduleLinkTable.Some? then {block.moduleLinkTable.value} else {}
  }

  lemma TablesWith(blocks: Blocks, key: Word, block: Block)
    requires key !in blocks
    ensures Tables(blocks[key := block]) == Tables(blocks) + TableOf(block)
  {
    var after := blocks[key := block];
    forall t <- Tables(blocks) ensures t in Tables(after) {
      var eip :| eip in blocks && blocks[eip].moduleLinkTable == Some(t);
      assert after[eip] == blocks[eip];
    }
    if block.moduleLinkTable.Some? { assert after[key] == block; }
  }

  /** The tables left when a block is dropped: nobody else has its table. */
  lemma TablesWithout(state: State, key: Word)
    requires state.OwnTables() && key in state.blocks
    ensures Tables(state.blocks - {key}) == Tables(state.blocks) - TableOf(state.blocks[key])
  {
    var after := state.blocks - {key};
    forall t <- Tables(state.blocks) - TableOf(state.blocks[key]) ensures t in Tables(after) {
      var eip :| eip in state.blocks && state.blocks[eip].moduleLinkTable == Some(t);
      assert eip in after && after[eip] == state.blocks[eip];
    }
  }

  /** What the tables hold once one target has been installed in, or removed from, every table. */
  function Relinked(links: Links, key: Word, fn: Option<Fn>): Links {
    map t <- links :: Installed(links[t], key, fn)
  }

  /** Adding a compiled block: its own table is linked to what is cached, and everybody's slot for it to the block. */
  lemma AddBlockOk(state: State, key: Word, block: Block, dependents: Dependents, slots: Slots)
    requires state.Ok() && key !in state.blocks && TableOf(block) !! state.links.Keys
    requires block.moduleLinkTable.Some? ==> LinkedTo(slots, state.blocks[key := block])
    requires forall eip: Word ::
               DependentsOf(dependents, eip) ==
               DependentsOf(state.dependents, eip) + (if eip in slots then TableOf(block) else {})
    ensures
      var links := if block.moduleLinkTable.Some? then state.links[block.moduleLinkTable.value := slots] else state.links;
      State(state.blocks[key := block], dependents, Relinked(links, key, Some(block.fn))).Ok()
  {
    hide LinkedTo, Tables, Installed;
    var links := if block.moduleLinkTable.Some? then state.links[block.moduleLinkTable.value := slots] else state.links;
    var after := State(state.blocks[key := block], dependents, Relinked(links, key, Some(block.fn)));
    TablesWith(state.blocks, key, block);
    AddRegistered(state, block, dependents, slots);
    InstalledKeys(links, key, Some(block.fn));
    forall t <- after.links ensures LinkedTo(after.links[t], after.blocks) {
      if t in state.links {
        LinkedAfterInstall(links[t], state.blocks, key, block);
      } else {
        LinkedTwice(slots, state.blocks, key, block);
      }
    }
    AddOwnTables(state, key, block);
  }

  lemma AddOwnTables(state: State, key: Word, block: Block)
    requires state.OwnTables() && state.OnlyCachedTables() && TableOf(block) !! state.links.Keys
    ensures State(state.blocks[key := block], state.dependents, state.links).OwnTables()
  {
    forall a <- state.blocks ensures TableOf(state.blocks[a]) <= state.links.Keys {}
  }

  lemma InstalledKeys(links: Links, key: Word, fn: Option<Fn>)
    ensures forall t <- links :: Installed(links[t], key, fn).Keys == links[t].Keys
  {
  }

  lemma AddRegistered(state: State, block: Block, dependents: Dependents, slots: Slots)
    requires state.Registered() && state.OnlyCachedTables() && TableOf(block) !! state.links.Keys
    requires forall eip: Word ::
               DependentsOf(dependents, eip) ==
               DependentsOf(state.dependents, eip) + (if eip in slots then TableOf(block) else {})
    ensures
      var links := if block.moduleLinkTable.Some? then state.links[block.moduleLinkTable.value := slots] else state.links;
      && (forall eip: Word, t <- links :: t in DependentsOf(dependents, eip) <==> eip in links[t])
      && (forall eip: Word :: DependentsOf(dependents, eip) <= links.Keys)
  {
    hide Tables, DependentsOf;
  }

  /** Dropping a block: its table is no longer anybody's dependent, and everybody's slot for it falls back. */
  lemma DropBlockOk(state: State, key: Word, dependents: Dependents)
    requires state.Ok() && key in state.blocks
    requires
      var table := state.blocks[key].moduleLinkTable;
      forall eip: Word ::
        DependentsOf(dependents, eip) ==
        DependentsOf(state.dependents, eip) -
        (if table.Some? && table.value in state.links && eip in state.links[table.value] then {table.value} else {})
    ensures
      var links := state.links - TableOf(state.blocks[key]);
      State(state.blocks - {key}, dependents, Relinked(links, key, None)).Ok()
  {
    hide LinkedTo, Tables, Installed;
    var links := state.links - TableOf(state.blocks[key]);
    var after := State(state.blocks - {key}, dependents, Relinked(links, key, None));
    TablesWithout(state, key);
    InstalledKeys(links, key, None);
    DropRegistered(state, key, dependents);
    forall t <- after.links ensures LinkedTo(after.links[t], after.blocks) {
      LinkedAfterInvalidate(links[t], state.blocks, key);
    }
    DropOwnTables(state, key);
  }

  lemma DropOwnTables(state: State, key: Word)
    requires state.OwnTables()
    ensures State(state.blocks - {key}, state.dependents, state.links).OwnTables()
  {
  }

  lemma DropRegistered(state: State, key: Word, dependents: Dependents)
    requires state.Registered() && state.OnlyCachedTables() && key in state.blocks
    requires
      var table := state.blocks[key].moduleLinkTable;
      forall eip: Word ::
        DependentsOf(dependents, eip) ==
        DependentsOf(state.dependents, eip) -
        (if table.Some? && table.value in state.links && eip in state.links[table.value] then {table.value} else {})
    ensures
      var links := state.links - TableOf(state.blocks[key]);
      && (forall eip: Word, t <- links :: t in DependentsOf(dependents, eip) <==> eip in links[t])
      && (forall eip: Word :: DependentsOf(dependents, eip) <= links.Keys)
  {
    hide Tables, DependentsOf;
  }

  /**
   Following a link from a cached block reaches the current code of a cached block or the module's own fallback, never
   code of a dropped block; and restoring the fallback of any slot succeeds.
   */
  lemma LinksReachOnlyCachedCode(state: State, table: JitModuleLinkTable, eip: Word)
    requires state.Ok() && table in state.links && eip in state.links[table]
    ensures
      var entry := state.links[table][eip];
      && entry.fallback.Some?
      && JitModuleLinkTable.Holds(entry) == (if eip in state.blocks then Some(state.blocks[eip].fn) else entry.fallback)
  {
  }

  /** Install a function in the slot of one target in several tables. */
  method InstallTargetIn(tables: set<JitModuleLinkTable>, eip: Word, fn: Fn)
    requires forall t <- tables :: t.Valid() && eip in t.slotsByTargetEip
    modifies tables
    ensures forall t <- tables :: t.Valid() && t.slotsByTargetEip == Installed(old(t.slotsByTargetEip), eip, Some(fn))
  {
    hide JitModuleLinkTable.Valid;
    var rest := tables;
    while rest != {}
      invariant rest <= tables
      invariant forall t <- rest :: t.Valid() && eip in t.slotsByTargetEip && t.slotsByTargetEip == old(t.slotsByTargetEip)
      invariant forall t <- tables - rest :: t.Valid() && t.slotsByTargetEip == Installed(old(t.slotsByTargetEip), eip, Some(fn))
      decreases rest
    {
      var t :| t in rest;
      t.InstallTarget(eip, fn);
      rest := rest - {t};
    }
  }

  /** Restore the fallback in the slot of one target in several tables. */
  method InvalidateTargetIn(tables: set<JitModuleLinkTable>, eip: Word) returns (ok: bool)
    requires forall t <- tables :: t.Valid() && eip in t.slotsByTargetEip && t.slotsByTargetEip[eip].fallback.Some?
    modifies tables
    ensures ok
    ensures forall t <- tables :: t.Valid() && t.slotsByTargetEip == Installed(old(t.slotsByTargetEip), eip, None)
  {
    hide JitModuleLinkTable.Valid;
    var rest := tables;
    ok := true;
    while rest != {}
      invariant ok && rest <= tables
      invariant forall t <- rest :: t.Valid() && eip in t.slotsByTargetEip && t.slotsByTargetEip == old(t.slotsByTargetEip)
      invariant forall t <- tables - rest :: t.Valid() && t.slotsByTargetEip == Installed(old(t.slotsByTargetEip), eip, None)
      decreases rest
    {
      var t :| t in rest;
      ok := t.InvalidateTarget(eip);
      rest := rest - {t};
    }
  }

  class WasmCompiledBlockCache {
    var blocksByEip: Blocks
    var dependentTablesByTargetEip: Dependents

    ghost function View(): State
      reads this, Tables(blocksByEip)
    {
      State(blocksByEip, dependentTablesByTargetEip, map t <- Tables(blocksByEip) :: t.slotsByTargetEip)
    }

    ghost predicate Valid()
      reads this, Tables(blocksByEip)
    {
      View().Ok() && forall t <- Tables(blocksByEip) :: t.Valid()
    }

    constructor ()
      ensures Valid() && blocksByEip == map[]
    {
      blocksByEip, dependentTablesByTargetEip := map[], map[];
    }

    method Clear()
      modifies this
      ensures Valid() && blocksByEip == map[]
    {
      blocksByEip, dependentTablesByTargetEip := map[], map[];
    }

    /** Register a new block's table with each of its targets, and link it to those already cached. */
    method RegisterDependentTable(table: JitModuleLinkTable)
      requires table.Valid() && Fresh(table.slotsByTargetEip)
      modifies table, `dependentTablesByTargetEip
      ensures table.Valid() && LinkedTo(table.slotsByTargetEip, blocksByEip)
      ensures table.slotsByTargetEip.Keys == old(table.slotsByTargetEip).Keys
      ensures Registering(old(dependentTablesByTargetEip), dependentTablesByTargetEip, table.slotsByTargetEip.Keys, table, {})
    {
      hide JitModuleLinkTable.Valid, LinkedTo, Fresh, Linking, Registering, Installed, DependentsOf;
      var rest := table.slotsByTargetEip.Keys;
      ghost var targets, before := rest, table.slotsByTargetEip;
      LinkingStarts(before, blocksByEip);
      RegisteringStarts(dependentTablesByTargetEip, targets, table);
      while rest != {}
        invariant table.Valid() && rest <= targets && table.slotsByTargetEip.Keys == targets
        invariant Linking(before, table.slotsByTargetEip, blocksByEip, rest)
        invariant Registering(old(dependentTablesByTargetEip), dependentTablesByTargetEip, targets, table, rest)
        decreases rest
      {
        var eip :| eip in rest;
        LinkingMore(before, table.slotsByTargetEip, blocksByEip, rest, eip);
        RegisteringMore(old(dependentTablesByTargetEip), dependentTablesByTargetEip, targets, table, rest, eip);
        var dependents := DependentsOf(dependentTablesByTargetEip, eip);
        dependentTablesByTargetEip := dependentTablesByTargetEip[eip := dependents + {table}];
        StillToLink(before, table.slotsByTargetEip, blocksByEip, rest, eip);
        LinkIfCached(table, eip);
        rest := rest - {eip};
      }
      LinkingEnds(before, table.slotsByTargetEip, blocksByEip);
    }

    method LinkIfCached(table: JitModuleLinkTable, eip: Word)
      requires table.Valid() && eip in table.slotsByTargetEip && table.slotsByTargetEip[eip].installed.None?
      modifies table
      ensures table.Valid()
      ensures table.slotsByTargetEip == Installed(old(table.slotsByTargetEip), eip, Current(blocksByEip, eip))
    {
      if eip in blocksByEip {
        table.InstallTarget(eip, blocksByEip[eip].fn);
      }
    }

    /** Take a dropped block's table off every target's dependents. */
    method UnregisterDependentTable(table: JitModuleLinkTable)
      modifies `dependentTablesByTargetEip
      ensures Unregistering(old(dependentTablesByTargetEip), dependentTablesByTargetEip, table.slotsByTargetEip.Keys, table, {})
    {
      hide Unregistering, DependentsOf;
      var rest := table.slotsByTargetEip.Keys;
      UnregisteringStarts(dependentTablesByTargetEip, rest, table);
      while rest != {}
        invariant rest <= table.slotsByTargetEip.Keys
        invariant Unregistering(old(dependentTablesByTargetEip), dependentTablesByTargetEip, table.slotsByTargetEip.Keys, table, rest)
        decreases rest
      {
        var eip :| eip in rest;
        UnregisteringMore(old(dependentTablesByTargetEip), dependentTablesByTargetEip, table.slotsByTargetEip.Keys, table, rest, eip);
        dependentTablesByTargetEip := WithoutDependent(dependentTablesByTargetEip, eip, table);
        rest := rest - {eip};
      }
    }

    ghost function Contents(): Links
      reads this, Tables(blocksByEip)
    {
      map t <- Tables(blocksByEip) :: t.slotsByTargetEip
    }

    method RegisterBlock(compiled: Block) returns (ghost slots: Slots)
      requires Compiled(compiled)
      modifies TableOf(compiled), `dependentTablesByTargetEip
      ensures forall t <- TableOf(compiled) :: t.Valid() && t.slotsByTargetEip == slots && LinkedTo(slots, blocksByEip)
      ensures forall eip: Word ::
                DependentsOf(dependentTablesByTargetEip, eip) ==
                DependentsOf(old(dependentTablesByTargetEip), eip) + (if eip in slots then TableOf(compiled) else {})
    {
      hide JitModuleLinkTable.Valid, LinkedTo, Fresh, Registering, Installed, DependentsOf;
      slots := map[];
      if compiled.moduleLinkTable.Some? {
        RegisterDependentTable(compiled.moduleLinkTable.value);
        slots := compiled.moduleLinkTable.value.slotsByTargetEip;
      }
      RegisteredBy(old(dependentTablesByTargetEip), dependentTablesByTargetEip, slots, compiled);
    }

    /** Put a block into the cache and register its table; everybody's slot for it is still to be linked. */
    method EnterBlock(key: Word, compiled: Block) returns (ghost slots: Slots)
      requires Valid() && key !in blocksByEip && Compiled(compiled) && TableOf(compiled) !! Tables(blocksByEip)
      modifies this, TableOf(compiled)
      ensures blocksByEip == old(blocksByEip)[key := compiled]
      ensures Tables(blocksByEip) == old(Tables(blocksByEip)) + TableOf(compiled)
      ensures compiled.moduleLinkTable.Some? ==> LinkedTo(slots, blocksByEip)
      ensures Contents().Keys == old(Contents()).Keys + TableOf(compiled)
      ensures forall t <- Contents() :: t.Valid() && Contents()[t] == if t in TableOf(compiled) then slots else old(Contents())[t]
      ensures forall eip: Word ::
                DependentsOf(dependentTablesByTargetEip, eip) ==
                DependentsOf(old(dependentTablesByTargetEip), eip) + (if eip in slots then TableOf(compiled) else {})
    {
      ghost var tables, links := Tables(blocksByEip), Contents();
      assert forall t <- tables :: t.Valid() && t.slotsByTargetEip == links[t];
      hide JitModuleLinkTable.Valid, LinkedTo, Fresh, Registering, Installed, DependentsOf, State.Ok, Tables;
      TablesWith(blocksByEip, key, compiled);
      blocksByEip := blocksByEip[key := compiled];
      slots := RegisterBlock(compiled);
      assert forall t <- tables :: t !in TableOf(compiled) ==> t.slotsByTargetEip == links[t] && t.Valid();
      assert Contents().Keys == tables + TableOf(compiled);
    }

    /** Install a function in everybody's slot for a target. */
    method Publish(key: Word, fn: Fn, ghost links: Links)
      requires Contents() == links && forall t <- Tables(blocksByEip) :: t.Valid()
      requires DependentsOf(dependentTablesByTargetEip, key) <= links.Keys
      requires forall t <- links :: t in DependentsOf(dependentTablesByTargetEip, key) <==> key in links[t]
      modifies Tables(blocksByEip)
      ensures Contents() == Relinked(links, key, Some(fn)) && forall t <- Tables(blocksByEip) :: t.Valid()
    {
      hide JitModuleLinkTable.Valid, Installed, DependentsOf, Tables, Relinked;
      ghost var users := DependentsOf(dependentTablesByTargetEip, key);
      assert forall t <- users :: t.slotsByTargetEip == links[t];
      InstallTargetIn(DependentsOf(dependentTablesByTargetEip, key), key, fn);
      RelinkedBy(links, key, Some(fn), users, Contents());
    }

    /** Restore the fallback in everybody's slot for a target. */
    method Retract(key: Word, ghost links: Links) returns (ok: bool)
      requires Contents() == links && forall t <- Tables(blocksByEip) :: t.Valid()
      requires DependentsOf(dependentTablesByTargetEip, key) <= links.Keys
      requires forall t <- links :: t in DependentsOf(dependentTablesByTargetEip, key) <==> key in links[t]
      requires forall t <- DependentsOf(dependentTablesByTargetEip, key) :: key in links[t] && links[t][key].fallback.Some?
      modifies Tables(blocksByEip)
      ensures ok
      ensures Contents() == Relinked(links, key, None) && forall t <- Tables(blocksByEip) :: t.Valid()
    {
      hide JitModuleLinkTable.Valid, Installed, DependentsOf, Tables, Relinked;
      ghost var users := DependentsOf(dependentTablesByTargetEip, key);
      assert forall t <- users :: t.slotsByTargetEip == links[t];
      ok := InvalidateTargetIn(DependentsOf(dependentTablesByTargetEip, key), key);
      RelinkedBy(links, key, None, users, Contents());
    }

    /** Cache a block: its slots are linked to cached targets, and everybody's slot for it to the block. */
    method AddBlock(key: Word, compiled: Block)
      requires Valid() && key !in blocksByEip && Compiled(compiled) && TableOf(compiled) !! Tables(blocksByEip)
      modifies this, Tables(blocksByEip), TableOf(compiled)
      ensures Valid() && blocksByEip == old(blocksByEip)[key := compiled]
    {
      hide JitModuleLinkTable.Valid, LinkedTo, Fresh, Installed, DependentsOf, State.Ok, Tables, Relinked, Compiled;
      ghost var before := View();
      before.OkParts();
      ghost var slots := EnterBlock(key, compiled);
      AddBlockOk(before, key, compiled, dependentTablesByTargetEip, slots);
      ghost var links := Contents();
      LinksWith(before.links, compiled, slots, links);
      DependentsAreUsers(before, key, compiled, dependentTablesByTargetEip, slots, links);
      Publish(key, compiled.fn, links);
    }

    /** Look a block up, or cache the newly compiled one; nothing changes when there is none. */
    method GetOrCompile(startEip: int, compiled: Option<Block>) returns (block: Option<Block>)
      requires Valid()
      requires compiled.Some? ==> Compiled(compiled.value) && TableOf(compiled.value) !! Tables(blocksByEip)
      modifies this, Tables(blocksByEip), if compiled.Some? then TableOf(compiled.value) else {}
      ensures Valid()
      ensures
        var key := U32(startEip);
        if key in old(blocksByEip) then block == Some(old(blocksByEip)[key]) && blocksByEip == old(blocksByEip)
        else block == compiled &&
             blocksByEip == if compiled.Some? then old(blocksByEip)[key := compiled.value] else old(blocksByEip)
    {
      hide State.Ok, JitModuleLinkTable.Valid, Tables;
      var key := U32(startEip);
      if key in blocksByEip {
        return Some(blocksByEip[key]);
      }
      if compiled.Some? {
        AddBlock(key, compiled.value);
      }
      block := compiled;
    }

    /** Drop a block: every slot that held its function gets its fallback back, which cannot fail. */
    method Invalidate(startEip: int) returns (ok: bool)
      requires Valid()
      modifies this, Tables(blocksByEip)
      ensures Valid() && ok && blocksByEip == old(blocksByEip) - {U32(startEip)}
    {
      hide JitModuleLinkTable.Valid, LinkedTo, Fresh, Installed, DependentsOf, State.Ok, Tables, Relinked;
      var key := U32(startEip);
      ok := true;
      if key !in blocksByEip {
        return;
      }
      ghost var before := View();
      before.OkParts();
      var dropped := LeaveBlock(key);
      DropBlockOk(before, key, dependentTablesByTargetEip);
      RemainingUsers(before, key, dependentTablesByTargetEip);
      ok := Retract(key, before.links - TableOf(dropped));
    }

    method UnregisterBlock(ghost key: Word, dropped: Block, ghost before: State)
      requires before.Ok() && key in before.blocks && before.blocks[key] == dropped
      requires dependentTablesByTargetEip == before.dependents
      requires forall t <- TableOf(dropped) :: t in before.links && t.slotsByTargetEip == before.links[t]
      modifies `dependentTablesByTargetEip
      ensures
        var table, links := dropped.moduleLinkTable, before.links;
        forall eip: Word ::
          DependentsOf(dependentTablesByTargetEip, eip) ==
          DependentsOf(before.dependents, eip) -
          (if table.Some? && table.value in links && eip in links[table.value] then {table.value} else {})
    {
      hide LinkedTo, Unregistering, Installed, DependentsOf, State.Ok, Tables;
      if dropped.moduleLinkTable.Some? {
        UnregisterDependentTable(dropped.moduleLinkTable.value);
      }
      UnregisteredBy(before, key, dependentTablesByTargetEip);
    }

    /** Take a block out of the cache and unregister its table. */
    method LeaveBlock(key: Word) returns (dropped: Block)
      requires Valid() && key in blocksByEip
      modifies this
      ensures dropped == old(blocksByEip)[key] && blocksByEip == old(blocksByEip) - {key}
      ensures Tables(blocksByEip) == old(Tables(blocksByEip)) - TableOf(dropped)
      ensures Contents() == old(Contents()) - TableOf(dropped)
      ensures forall t <- Tables(blocksByEip) :: t.Valid()
      ensures
        var table, links := dropped.moduleLinkTable, old(Contents());
        forall eip: Word ::
          DependentsOf(dependentTablesByTargetEip, eip) ==
          DependentsOf(old(dependentTablesByTargetEip), eip) -
          (if table.Some? && table.value in links && eip in links[table.value] then {table.value} else {})
    {
      ghost var tables, links := Tables(blocksByEip), Contents();
      assert forall t <- tables :: t.Valid() && t.slotsByTargetEip == links[t];
      hide JitModuleLinkTable.Valid, LinkedTo, Unregistering, Installed, DependentsOf, State.Ok, Tables;
      ghost var before := View();
      before.OkParts();
      TablesWithout(before, key);
      dropped := blocksByEip[key];
      HasTable(blocksByEip, key);
      blocksByEip := blocksByEip - {key};
      UnregisterBlock(key, dropped, before);
      assert forall t <- tables :: t.slotsByTargetEip == links[t] && t.Valid();
      assert Tables(blocksByEip) == tables - TableOf(dropped);
      hide DependentsOf, TableOf;
      assert Contents() == links - TableOf(dropped);
    }
  }

  lemma LinksWith(before: Links, block: Block, slots: Slots, links: Links)
    requires TableOf(block) !! before.Keys && links.Keys == before.Keys + TableOf(block)
    requires forall t <- links :: links[t] == if t in TableOf(block) then slots else before[t]
    ensures links == if block.moduleLinkTable.Some? then before[block.moduleLinkTable.value := slots] else before
  {
  }

  lemma HasTable(blocks: Blocks, key: Word)
    requires key in blocks
    ensures TableOf(blocks[key]) <= Tables(blocks)
  {
  }

  lemma RegisteringStarts(dependents: Dependents, targets: set<Word>, table: JitModuleLinkTable)
    ensures Registering(dependents, dependents, targets, table, targets)
  {
  }

  lemma UnregisteringStarts(dependents: Dependents, targets: set<Word>, table: JitModuleLinkTable)
    ensures Unregistering(dependents, dependents, targets, table, targets)
  {
  }

  lemma StillToLink(before: Slots, slots: Slots, blocks: Blocks, rest: set<Word>, eip: Word)
    requires Linking(before, slots, blocks, rest) && eip in rest
    ensures eip in slots && slots[eip].installed.None?
    ensures Installed(slots, eip, Current(blocks, eip)).Keys == slots.Keys
  {
  }

  /** A block as it leaves the compiler. */
  ghost predicate Compiled(block: Block)
    reads TableOf(block)
  {
    block.moduleLinkTable.Some? ==>
      block.moduleLinkTable.value.Valid() && Fresh(block.moduleLinkTable.value.slotsByTargetEip)
  }

  lemma RegisteredBy(was: Dependents, dependents: Dependents, slots: Slots, block: Block)
    requires if block.moduleLinkTable.Some? then Registering(was, dependents, slots.Keys, block.moduleLinkTable.value, {})
             else dependents == was && slots == map[]
    ensures forall eip: Word ::
              DependentsOf(dependents, eip) == DependentsOf(was, eip) + (if eip in slots then TableOf(block) else {})
  {
    hide DependentsOf;
  }

  lemma DependentsAreUsers(
      state: State, key: Word, block: Block, dependents: Dependents, slots: Slots, links: Links)
    requires state.Ok() && TableOf(block) !! state.links.Keys
    requires forall eip: Word ::
               DependentsOf(dependents, eip) ==
               DependentsOf(state.dependents, eip) + (if eip in slots then TableOf(block) else {})
    requires links == if block.moduleLinkTable.Some? then state.links[block.moduleLinkTable.value := slots] else state.links
    ensures DependentsOf(dependents, key) <= links.Keys
    ensures forall t <- links :: t in DependentsOf(dependents, key) <==> key in links[t]
  {
    hide LinkedTo, Tables, DependentsOf;
    AddRegistered(state, block, dependents, slots);
  }

  /** Changing the slot in the tables that have one is changing it in all tables. */
  lemma RelinkedBy(links: Links, key: Word, fn: Option<Fn>, users: set<JitModuleLinkTable>, after: Links)
    requires after.Keys == links.Keys && users <= links.Keys
    requires forall t <- links :: t in users <==> key in links[t]
    requires forall t <- links :: after[t] == if t in users then Installed(links[t], key, fn) else links[t]
    ensures after == Relinked(links, key, fn)
  {
    forall t <- links ensures after[t] == Installed(links[t], key, fn) {}
  }

  lemma UnregisteredBy(state: State, key: Word, dependents: Dependents)
    requires state.Ok() && key in state.blocks
    requires
      var table := state.blocks[key].moduleLinkTable;
      if table.Some? then
        table.value in state.links &&
        Unregistering(state.dependents, dependents, state.links[table.value].Keys, table.value, {})
      else dependents == state.dependents
    ensures
      var table := state.blocks[key].moduleLinkTable;
      forall eip: Word ::
        DependentsOf(dependents, eip) ==
        DependentsOf(state.dependents, eip) -
        (if table.Some? && table.value in state.links && eip in state.links[table.value] then {table.value} else {})
  {
    hide DependentsOf, LinkedTo, Tables;
  }

  lemma RemainingUsers(state: State, key: Word, dependents: Dependents)
    requires state.Ok() && key in state.blocks
    requires
      var table := state.blocks[key].moduleLinkTable;
      forall eip: Word ::
        DependentsOf(dependents, eip) ==
        DependentsOf(state.dependents, eip) -
        (if table.Some? && table.value in state.links && eip in state.links[table.value] then {table.value} else {})
    ensures
      var links := state.links - TableOf(state.blocks[key]);
      && DependentsOf(dependents, key) <= links.Keys
      && (forall t <- links :: t in DependentsOf(dependents, key) <==> key in links[t])
      && (forall t <- DependentsOf(dependents, key) :: key in links[t] && links[t][key].fallback.Some?)
  {
    hide Tables, DependentsOf;
    DropRegistered(state, key, dependents);
  }
}
