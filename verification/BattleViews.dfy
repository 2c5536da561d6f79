/** The derived view b and the battle caches bc0 .. bc15 of replay_export.c. */
module BattleViews {
  import opened Wrappers

  const MAX_MATCHES: nat := 16

  /** How running some SQL ends; a failure may leave anything behind. */
  datatype Run<Content> = Done | Failed(left: Content)

  class Views<Script(==), Data, Content> {
    /** What a script derives from the data for a battle. */
    const derive: (Script, Data, int) -> Content
    const standard: Script
    /** The database: the recorded data, and the derived schemas. */
    var main: Data
    var b: Content
    var slots: seq<Content>
    /** g_data_generation, g_active_match_index, and the number of battles */
    var generation: nat
    var active: int
    var matchCount: nat
    /** g_bc_valid and g_bc_built_at_generation */
    var bcValid: seq<bool>
    var bcBuiltAt: seq<nat>
    /** g_b_view; the script stands for its hash */
    var attached: bool
    var forMatch: int
    var builtAt: nat
    var builtFrom: Option<Script>
    var custom: Option<Script>

    constructor (derive: (Script, Data, int) -> Content, standard: Script, main: Data, empty: Content, matchCount: nat)
      ensures Valid() && this.main == main && active == -1 && custom == None
      ensures this.derive == derive && this.standard == standard
    {
      this.derive := derive;
      this.standard := standard;
      this.main := main;
      b := empty;
      slots := seq(MAX_MATCHES, _ => empty);
      generation := 0;
      active := -1;
      this.matchCount := matchCount;
      bcValid := seq(MAX_MATCHES, _ => false);
      bcBuiltAt := seq(MAX_MATCHES, _ => 0);
      attached := false;
      forMatch := -1;
      builtAt := 0;
      builtFrom := None;
      custom := None;
    }

    /** The script in use. */
    function Script(): Script
      reads this`custom
    {
      if custom.Some? then custom.value else standard
    }

    /** Slot i is current: nothing was written since it was built. */
    predicate Current(i: int)
      requires |bcValid| == |bcBuiltAt| == MAX_MATCHES
      reads this`bcValid, this`bcBuiltAt, this`generation
    {
      0 <= i < MAX_MATCHES && bcValid[i] && bcBuiltAt[i] == generation
    }

    /** What is recorded as current is what the data gives now. */
    ghost predicate Valid()
      reads this
    {
      && |slots| == |bcValid| == |bcBuiltAt| == MAX_MATCHES && builtAt <= generation
      && (forall i :: 0 <= i < MAX_MATCHES ==> bcBuiltAt[i] <= generation)
      && (forall i :: Current(i) ==> slots[i] == derive(standard, main, i))
      && (attached ==> builtFrom.Some?)
      && (attached && builtAt == generation ==> b == derive(builtFrom.value, main, forMatch))
    }

    /** A script is run into a schema, for the battle that is active. */
    method Exec(script: Script, run: Run<Content>) returns (ok: bool, content: Content)
      ensures ok == run.Done?
      ensures content == match run case Done => derive(script, main, active) case Failed(left) => left
    {
      match run
      case Done => return true, derive(script, main, active);
      case Failed(left) => return false, left;
    }

    /** bc_evict; dropping the tables may fail halfway */
    method BcEvict(i: int, left: Content)
      requires Valid()
      modifies this`bcValid, this`slots
      ensures Valid() && |bcValid| == |old(bcValid)|
      ensures 0 <= i < MAX_MATCHES ==> !bcValid[i]
      ensures forall k :: 0 <= k < MAX_MATCHES && k != i ==> bcValid[k] == old(bcValid[k]) && slots[k] == old(slots[k])
    {
      if i < 0 || i >= MAX_MATCHES || !bcValid[i] {
        return;
      }
      slots := slots[i := left];
      bcValid := bcValid[i := false];
    }

    /** bc_compute */
    method BcCompute(i: int, attaches: bool, drop: Run<Content>, fill: Run<Content>) returns (rc: int)
      requires Valid() && 0 <= i < MAX_MATCHES && !Current(i)
      modifies this`slots, this`bcValid, this`bcBuiltAt, this`active
      ensures Valid() && active == old(active) && rc == if attaches && drop.Done? && fill.Done? then 0 else -1
      ensures rc == 0 ==> Current(i)
      ensures forall k :: 0 <= k < MAX_MATCHES && k != i ==> slots[k] == old(slots[k]) && bcValid[k] == old(bcValid[k]) && bcBuiltAt[k] == old(bcBuiltAt[k])
    {
      if !attaches {
        return -1;
      }
      var prevActive := active;
      active := i;
      var ok := drop.Done?;
      var content := slots[i];
      if ok {
        ok, content := Exec(standard, fill);
      } else {
        content := drop.left;
      }
      slots := slots[i := content];
      active := prevActive;
      if !ok {
        return -1;
      }
      bcValid := bcValid[i := true];
      bcBuiltAt := bcBuiltAt[i := generation];
      return 0;
    }

    /** replay_prewarm_battle_summary, where victim is what bc_pick_victim and the distances lead to. */
    method Prewarm(i: int, overBudget: bool, victim: int, left: Content, attaches: bool, drop: Run<Content>, fill: Run<Content>)
        returns (rc: int)
      requires Valid()
      modifies this`slots, this`bcValid, this`bcBuiltAt, this`active
      ensures Valid() && active == old(active)
      ensures rc == 1 ==> Current(i)
      ensures rc == if !(0 <= i < matchCount && i < MAX_MATCHES) then -1
                    else if old(Current(i)) then 1
                    else if overBudget && victim < 0 then 0
                    else if attaches && drop.Done? && fill.Done? then 1
                    else -1
    {
      if i < 0 || i >= matchCount || i >= MAX_MATCHES {
        return -1;
      }
      if bcValid[i] && bcBuiltAt[i] == generation {
        return 1;
      }
      if overBudget {
        if victim < 0 {
          return 0;
        }
        BcEvict(victim, left);
      }
      var r := BcCompute(i, attaches, drop, fill);
      rc := if r == 0 then 1 else -1;
    }

    /** When b gets built: every statement that is run succeeds, those for the battle's slot only if it is needed and not current. */
    static predicate Succeeds(useCache: bool, battle: int, current: bool, reset: Run<Content>, attaches: bool, drop: Run<Content>,
        fill: Run<Content>, copy: Run<Content>)
    {
      && reset.Done? && copy.Done?
      && (useCache && 0 <= battle < MAX_MATCHES && !current ==> attaches && drop.Done? && fill.Done?)
    }

    /** b is recorded as the derivation of the script in use, for the active battle and the data as they are. */
    predicate KeyMatches()
      reads this`active, this`attached, this`forMatch, this`builtAt, this`generation, this`builtFrom, this`custom
    {
      active >= 0 && attached && forMatch == active && builtAt == generation && builtFrom == Some(Script())
    }

    /** attach_battledb_view */
    method Attach(script: Script, useCache: bool, reset: Run<Content>, left: Content,
        attaches: bool, drop: Run<Content>, fill: Run<Content>, copy: Run<Content>) returns (rc: int)
      requires Valid() && !attached && (useCache ==> script == standard)
      modifies this`b, this`slots, this`bcValid, this`bcBuiltAt, this`active
      ensures Valid() && active == old(active)
      ensures rc == 0 ==> b == derive(script, main, active)
      ensures rc == if Succeeds(useCache, old(active), old(Current(active)), reset, attaches, drop, fill, copy) then 0 else -2
    {
      if reset.Failed? {
        b := reset.left;
        return -2;
      }
      if useCache && 0 <= active < MAX_MATCHES {
        var i := active;
        if bcValid[i] && bcBuiltAt[i] != generation {
          BcEvict(i, left);
        }
        if !bcValid[i] {
          var r := BcCompute(i, attaches, drop, fill);
          if r != 0 {
            return -2;
          }
        }
        match copy
        case Done =>
          b := slots[i];
          return 0;
        case Failed(partial) =>
          b := partial;
          return -2;
      } else {
        var ok, content := Exec(script, copy);
        b := content;
        rc := if ok then 0 else -2;
      }
    }

    /** replay_ensure_db_view(2): what is reported as there is the script's derivation from the data as it is now. */
    method EnsureView(reset: Run<Content>, left: Content, attaches: bool, drop: Run<Content>, fill: Run<Content>, copy: Run<Content>)
        returns (rc: int)
      requires Valid()
      modifies this`b, this`slots, this`bcValid, this`bcBuiltAt, this`active,
               this`attached, this`forMatch, this`builtAt, this`builtFrom
      ensures Valid() && active == old(active)
      ensures rc >= 0 ==> active >= 0 && b == derive(Script(), main, active)
      ensures rc == 0 ==> b == old(b) && slots == old(slots)
      ensures rc == if active < 0 then -1
                    else if old(KeyMatches()) then 0
                    else if Succeeds(custom.None?, active, old(Current(active)), reset, attaches, drop, fill, copy) then 1
                    else -4
      ensures rc >= 0 ==> KeyMatches()
      ensures rc == -4 ==> !attached
    {
      if active < 0 {
        return -1;
      }
      var script := Script();
      if attached && forMatch == active && builtAt == generation && builtFrom == Some(script) {
        return 0;
      }
      // In the source only a failure clears this; nothing looks at it in between.
      attached := false;
      var r := Attach(script, custom.None?, reset, left, attaches, drop, fill, copy);
      if r != 0 {
        return -4;
      }
      attached := true;
      forMatch := active;
      builtAt := generation;
      builtFrom := Some(script);
      return 1;
    }

    /** replay_run_generator_script(2) */
    method RunScript(script: Script, reset: Run<Content>, left: Content, attaches: bool, drop: Run<Content>, fill: Run<Content>, copy: Run<Content>)
        returns (rc: int)
      requires Valid()
      modifies this`b, this`slots, this`bcValid, this`bcBuiltAt, this`active,
               this`attached, this`forMatch, this`builtAt, this`builtFrom, this`custom
      ensures Valid() && custom == Some(script)
      ensures rc == if active < 0 then -1 else if reset.Done? && copy.Done? then 1 else -4
      ensures rc == 1 ==> b == derive(script, main, active) && KeyMatches()
    {
      custom := Some(script);
      attached := false;
      rc := EnsureView(reset, left, attaches, drop, fill, copy);
    }

    /** replay_reset_generator_script(2) */
    method ResetScript(reset: Run<Content>, left: Content, attaches: bool, drop: Run<Content>, fill: Run<Content>, copy: Run<Content>)
        returns (rc: int)
      requires Valid()
      modifies this`b, this`slots, this`bcValid, this`bcBuiltAt, this`active,
               this`attached, this`forMatch, this`builtAt, this`builtFrom, this`custom
      ensures Valid() && custom == None
      ensures rc == if active < 0 then -1
                    else if Succeeds(true, active, old(Current(active)), reset, attaches, drop, fill, copy) then 1
                    else -4
      ensures rc == 1 ==> b == derive(standard, main, active) && KeyMatches()
    {
      custom := None;
      attached := false;
      rc := EnsureView(reset, left, attaches, drop, fill, copy);
    }

    /** on_row_changed, for a row of a schema other than b and the slots. */
    method RowChanged(newMain: Data)
      requires Valid()
      modifies this`main, this`generation
      ensures Valid() && main == newMain && generation == old(generation) + 1
    {
      main := newMain;
      generation := generation + 1;
    }

    /** The cursor goes to another battle, or to none. */
    method SwitchBattle(i: int)
      requires Valid()
      modifies this`active
      ensures Valid() && active == i
    {
      active := i;
    }

    /** replay_detach_generator_views */
    method DetachViews()
      requires |bcValid| == MAX_MATCHES
      modifies this`bcValid, this`attached
      ensures !attached && |bcValid| == MAX_MATCHES && forall i :: 0 <= i < MAX_MATCHES ==> !bcValid[i]
    {
      bcValid := seq(MAX_MATCHES, _ => false);
      attached := false;
    }

    /** sql_checkpoint_revert: rolls main and the derived schemas back without a single row being reported. */
    method Revert(ok: bool, newMain: Data, newB: Content, newSlots: seq<Content>, newCount: nat)
      requires Valid() && |newSlots| == MAX_MATCHES
      modifies this`main, this`b, this`slots, this`bcValid, this`attached, this`active, this`matchCount
      ensures Valid() && generation == old(generation)
      ensures !attached && forall i :: 0 <= i < MAX_MATCHES ==> !bcValid[i]
      ensures if ok then main == newMain && active == -1 else main == old(main) && active == old(active)
    {
      DetachViews();
      if !ok {
        return;
      }
      main, b, slots := newMain, newB, newSlots;
      DetachViews();
      active := -1;
      matchCount := newCount;
    }

    /** replay_export_battle, which uses b for its own tables and leaves it so. */
    method Export(left: Content, rows: nat)
      requires Valid()
      modifies this`b, this`attached, this`generation
      ensures Valid() && !attached
    {
      attached := false;
      b := left;
      generation := generation + rows;
    }
  }
}
