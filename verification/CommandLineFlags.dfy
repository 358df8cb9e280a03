/** Registered flags, the three ways of setting one, and saving and restoring all of them. */
module CommandLineFlags {
  import opened Basics
  import opened FlagValues

  datatype FlagSettingMode = SetFlagsValue | SetFlagIfDefault | SetFlagsDefault

  /** A registered validator, or none; a validator's answer depends only on the value. */
  type Validator = Option<FlagValue -> bool>

  /** The changeable part of a flag, together with its fixed type. */
  datatype FlagState = FlagState(flagType: FlagType, current: FlagValue, defvalue: FlagValue,
                                 modified: bool, validator: Validator)
  {
    ghost predicate Valid() {
      current.Type() == flagType && defvalue.Type() == flagType
    }

    predicate Accepts(v: FlagValue) {
      validator.None? || validator.value(v)
    }

    /** The value that `text` may give to this flag. */
    function TryParse(text: string): Option<FlagValue> {
      var r := ParseFrom(flagType, text);
      if r.Some? && Accepts(r.value) then r else None
    }

    /** An unmodified flag has its default value. */
    ghost predicate Honest() {
      !modified ==> current == defvalue
    }
  }

  function UpdateModifiedBit(f: FlagState): FlagState {
    f.(modified := f.modified || f.current != f.defvalue)
  }

  /** The flag after an attempt to set it from `text`, and whether the attempt succeeded. */
  function SetFlag(f: FlagState, text: string, mode: FlagSettingMode): (r: (FlagState, bool))
    ensures r.0.flagType == f.flagType && r.0.validator == f.validator
    ensures f.Valid() ==> r.0.Valid()
  {
    var g := UpdateModifiedBit(f);
    var v := g.TryParse(text);
    match mode
    case SetFlagsValue =>
      if v.None? then (g, false) else (g.(current := v.value, modified := true), true)
    case SetFlagIfDefault =>
      if g.modified then (g, true)
      else if v.None? then (g, false)
      else (g.(current := v.value, modified := true), true)
    case SetFlagsDefault =>
      if v.None? then (g, false)
      else if g.modified then (g.(defvalue := v.value), true)
      else (g.(defvalue := v.value, current := v.value), true)
  }

  /** Any sequence of attempts, in any modes. */
  ghost function SetMany(f: FlagState, attempts: seq<(string, FlagSettingMode)>): FlagState {
    if attempts == [] then f
    else SetFlag(SetMany(f, attempts[..|attempts| - 1]), attempts[|attempts| - 1].0, attempts[|attempts| - 1].1).0
  }

  /** A failed attempt changes neither value; at most it notices that the flag was written behind its back. */
  lemma FailureKeepsValues(f: FlagState, text: string, mode: FlagSettingMode)
    requires !SetFlag(f, text, mode).1
    ensures SetFlag(f, text, mode).0 == UpdateModifiedBit(f)
    ensures f.Honest() ==> SetFlag(f, text, mode).0 == f
    ensures f.TryParse(text) == None
  {
  }

  /** A successful attempt gives the text to the value that its mode is about, and to no value that the mode protects:
      only one mode overwrites what was set before, only one changes the default. Repeating it changes nothing. */
  lemma SuccessRespectsMode(f: FlagState, text: string, mode: FlagSettingMode)
    requires SetFlag(f, text, mode).1
    ensures var g := SetFlag(f, text, mode).0;
            && (mode == SetFlagsValue ==> g.modified && f.TryParse(text) == Some(g.current))
            && (mode == SetFlagsDefault ==> f.TryParse(text) == Some(g.defvalue))
            && (mode != SetFlagsValue && f.modified ==> g.current == f.current)
            && (mode != SetFlagsValue && !f.modified && f.Honest() ==> f.TryParse(text) == Some(g.current))
            && (mode != SetFlagsDefault ==> g.modified && g.defvalue == f.defvalue)
            && SetFlag(g, text, mode) == (g, true)
  {
  }

  /** Whole runs: an unmodified flag always has its default value, a modified flag never becomes unmodified,
      a value that passed its validator is only ever replaced by one that passes it too, and the current value
      is the one the flag started with or the outcome of one of the attempts. */
  lemma {:induction false} RunKeepsFlagHonest(f: FlagState, attempts: seq<(string, FlagSettingMode)>)
    requires f.Valid() && f.Honest()
    ensures var g := SetMany(f, attempts);
            && g.Valid() && g.Honest() && g.validator == f.validator && g.flagType == f.flagType
            && (f.modified ==> g.modified)
            && (f.Accepts(f.current) ==> g.Accepts(g.current))
            && (f.Accepts(f.defvalue) ==> g.Accepts(g.defvalue))
            && (g.current == f.current || exists i :: 0 <= i < |attempts| && f.TryParse(attempts[i].0) == Some(g.current))
  {
    if attempts != [] {
      var n := |attempts| - 1;
      RunKeepsFlagHonest(f, attempts[..n]);
      var g, h := SetMany(f, attempts[..n]), SetMany(f, attempts);
      if h.current == g.current {
        if h.current != f.current {
          var i :| 0 <= i < n && f.TryParse(attempts[..n][i].0) == Some(g.current);
          assert f.TryParse(attempts[i].0) == Some(h.current);
        }
      } else {
        assert f.TryParse(attempts[n].0) == Some(h.current);
      }
    }
  }

  /** Whole runs, mode by mode: attempts that all fail change nothing, what was set before is only overwritten by
      attempts in the one mode for that, and so is the default. */
  lemma {:induction false} RunRespectsModes(f: FlagState, attempts: seq<(string, FlagSettingMode)>)
    requires f.Valid() && f.Honest()
    ensures (forall i :: 0 <= i < |attempts| ==> f.TryParse(attempts[i].0) == None) ==> SetMany(f, attempts) == f
    ensures f.modified && (forall i :: 0 <= i < |attempts| ==> attempts[i].1 != SetFlagsValue) ==>
              SetMany(f, attempts).current == f.current
    ensures (forall i :: 0 <= i < |attempts| ==> attempts[i].1 != SetFlagsDefault) ==>
              SetMany(f, attempts).defvalue == f.defvalue
    decreases |attempts|
  {
    hide SetFlag, FlagState.TryParse;
    if attempts != [] {
      var n := |attempts| - 1;
      RunRespectsModes(f, attempts[..n]);
      RunKeepsFlagHonest(f, attempts[..n]);
      var g, text, mode := SetMany(f, attempts[..n]), attempts[n].0, attempts[n].1;
      assert forall i :: 0 <= i < n ==> attempts[..n][i] == attempts[i];
      SameParse(f, g, text);
      if SetFlag(g, text, mode).1 {
        SuccessRespectsMode(g, text, mode);
        if g.TryParse(text) == None { OnlyProtectedSucceeds(g, text, mode); }
      } else {
        FailureKeepsValues(g, text, mode);
      }
    }
  }

  /** A flag that was written behind the back of the registry, so that it differs from its default, counts as set:
      attempts notice it, and only those in the overwriting mode change it. */
  lemma {:induction false} WrittenBehindIsKept(f: FlagState, attempts: seq<(string, FlagSettingMode)>)
    requires f.current != f.defvalue && attempts != []
    requires forall i :: 0 <= i < |attempts| ==> attempts[i].1 != SetFlagsValue
    ensures SetMany(f, attempts).modified && SetMany(f, attempts).current == f.current
    decreases |attempts|
  {
    var n := |attempts| - 1;
    if n > 0 {
      WrittenBehindIsKept(f, attempts[..n]);
    } else {
      assert SetMany(f, attempts[..0]) == f;
    }
  }

  lemma SameParse(f: FlagState, g: FlagState, text: string)
    requires f.flagType == g.flagType && f.validator == g.validator
    ensures f.TryParse(text) == g.TryParse(text)
  {
  }

  /** A text that is not legal succeeds only where it is not looked at. */
  lemma OnlyProtectedSucceeds(f: FlagState, text: string, mode: FlagSettingMode)
    requires f.Honest() && SetFlag(f, text, mode).1 && f.TryParse(text) == None
    ensures mode == SetFlagIfDefault && f.modified && SetFlag(f, text, mode).0 == f
  {
  }

  // ----- The flag objects -----

  class CommandLineFlag {
    const name: string
    const flagType: FlagType
    var current: FlagValue
    var defvalue: FlagValue
    var modified: bool
    var validator: Validator

    ghost function State(): FlagState
      reads this
    {
      FlagState(flagType, current, defvalue, modified, validator)
    }

    constructor (name: string, flagType: FlagType, current: FlagValue, defvalue: FlagValue)
      ensures this.name == name && this.flagType == flagType
      ensures State() == FlagState(flagType, current, defvalue, false, None)
    {
      this.name, this.flagType := name, flagType;
      this.current, this.defvalue, this.modified, this.validator := current, defvalue, false, None;
    }

    /** Copies everything but the name and the type, and never the object itself. */
    method CopyFrom(src: CommandLineFlag)
      modifies this
      ensures State() == old(src.State()).(flagType := flagType)
    {
      if modified != src.modified { modified := src.modified; }
      if current != src.current { current := src.current; }
      if defvalue != src.defvalue { defvalue := src.defvalue; }
      validator := src.validator;
    }

    method UpdateModified()
      modifies this
      ensures State() == UpdateModifiedBit(old(State()))
    {
      if !modified && current != defvalue {
        modified := true;
      }
    }

    /** The value parsed from `text`, if it is legal and passes the validator. */
    method TryParseLocked(text: string) returns (v: Option<FlagValue>)
      ensures v == State().TryParse(text)
    {
      v := ParseFrom(flagType, text);
      if v.Some? && validator.Some? && !validator.value(v.value) {
        v := None;
      }
    }

    method SetFlagLocked(text: string, mode: FlagSettingMode) returns (ok: bool)
      modifies this
      ensures (State(), ok) == SetFlag(old(State()), text, mode)
    {
      UpdateModified();
      match mode {
        case SetFlagsValue =>
          var v := TryParseLocked(text);
          if v.None? { return false; }
          current := v.value;
          modified := true;
        case SetFlagIfDefault =>
          if !modified {
            var v := TryParseLocked(text);
            if v.None? { return false; }
            current := v.value;
            modified := true;
          }
        case SetFlagsDefault =>
          var v := TryParseLocked(text);
          if v.None? { return false; }
          defvalue := v.value;
          if !modified {
            v := TryParseLocked(text);
            if v.Some? { current := v.value; }
          }
      }
      return true;
    }
  }

  class FlagRegistry {
    var flags: map<string, CommandLineFlag>

    /** Every flag is registered under its own name; in particular no two names share a flag. */
    ghost predicate Valid()
      reads this
    {
      forall n <- flags :: flags[n].name == n
    }

    ghost function View(): (view: map<string, FlagState>)
      reads this, flags.Values
      ensures view.Keys == flags.Keys
    {
      map n | n in flags :: flags[n].State()
    }

    /** The fixed part of the registry: which names there are, and their types. */
    function Types(): (types: map<string, FlagType>)
      reads this
      ensures types.Keys == flags.Keys
    {
      map n | n in flags :: flags[n].flagType
    }

    constructor ()
      ensures Valid() && flags == map[]
    {
      flags := map[];
    }

    /** False when the name is taken, which ends the program. */
    method RegisterFlag(flag: CommandLineFlag) returns (ok: bool)
      requires Valid()
      modifies this
      ensures Valid() && ok == (flag.name !in old(flags))
      ensures flags == if ok then old(flags)[flag.name := flag] else old(flags)
    {
      ok := flag.name !in flags;
      if ok { flags := flags[flag.name := flag]; }
    }

    /** Sets one registered flag; all others keep their states. */
    method SetFlagLocked(n: string, text: string, mode: FlagSettingMode) returns (ok: bool)
      requires Valid() && n in flags
      modifies flags.Values
      ensures View() == old(View())[n := SetFlag(old(View()[n]), text, mode).0]
      ensures ok == SetFlag(old(View()[n]), text, mode).1
    {
      ok := flags[n].SetFlagLocked(text, mode);
    }

    /** Overwrites the state of one registered flag. */
    method CopyInto(n: string, src: CommandLineFlag)
      requires Valid() && n in flags && src !in flags.Values && src.flagType == flags[n].flagType
      modifies flags.Values
      ensures View() == old(View())[n := src.State()]
    {
      flags[n].CopyFrom(src);
    }
  }

  /** The states held by a list of backups, by name. */
  ghost function States(backups: seq<CommandLineFlag>): (states: map<string, FlagState>)
    reads backups
    ensures backups == [] ==> states == map[]
  {
    if backups == [] then map[]
    else
      var n := |backups| - 1;
      States(backups[..n])[backups[n].name := backups[n].State()]
  }

  /** `view` with the states of `saved` put back for the flags that are still there. */
  ghost function Restored(view: map<string, FlagState>, saved: map<string, FlagState>): (r: map<string, FlagState>)
    ensures saved == map[] ==> r == view
    ensures saved.Keys == view.Keys ==> r == saved
  {
    map n | n in view :: if n in saved then saved[n] else view[n]
  }

  lemma StatesOfLast(backups: seq<CommandLineFlag>, b: CommandLineFlag)
    ensures States(backups + [b]) == States(backups)[b.name := b.State()]
  {
    assert (backups + [b])[..|backups|] == backups;
  }

  lemma RestoredStep(view: map<string, FlagState>, saved: map<string, FlagState>, n: string, f: FlagState)
    ensures Restored(view, saved[n := f]) == if n in view then Restored(view, saved)[n := f] else Restored(view, saved)
  {
  }

  /** Saves the states of all flags and puts them back, without ever replacing a flag object of the registry. */
  class FlagSaverImpl {
    const mainRegistry: FlagRegistry
    var backupRegistry: seq<CommandLineFlag>

    constructor (mainRegistry: FlagRegistry)
      ensures this.mainRegistry == mainRegistry && backupRegistry == []
    {
      this.mainRegistry := mainRegistry;
      backupRegistry := [];
    }

    /** The backups are objects apart from those in use, with the types of their namesakes. */
    ghost predicate Suits()
      reads this, mainRegistry
    {
      forall b <- backupRegistry ::
        && b !in mainRegistry.flags.Values
        && (b.name in mainRegistry.flags ==> mainRegistry.flags[b.name].flagType == b.flagType)
    }

    method SaveFromRegistry()
      requires mainRegistry.Valid() && backupRegistry == []
      modifies this
      ensures States(backupRegistry) == mainRegistry.View()
      ensures fresh(backupRegistry) && Suits()
    {
      hide FlagRegistry.View, States;
      var names := mainRegistry.flags.Keys;
      ghost var view := mainRegistry.View();
      while names != {}
        invariant names <= mainRegistry.flags.Keys
        invariant fresh(backupRegistry) && Suits()
        invariant States(backupRegistry) == view - names
      {
        var n :| n in names;
        var backup := BackUp(n);
        StatesOfLast(backupRegistry, backup);
        assert (view - names)[n := view[n]] == view - (names - {n});
        backupRegistry := backupRegistry + [backup];
        names := names - {n};
      }
      assert view - {} == view;
    }

    method BackUp(n: string) returns (backup: CommandLineFlag)
      requires mainRegistry.Valid() && n in mainRegistry.flags
      ensures fresh(backup) && backup.name == n && backup.flagType == mainRegistry.flags[n].flagType
      ensures backup.State() == mainRegistry.View()[n]
    {
      var main := mainRegistry.flags[n];
      backup := new CommandLineFlag(n, main.flagType, main.current, main.defvalue);
      backup.CopyFrom(main);
    }

    /** Whatever was done to the flags since, every flag that was saved and is still registered gets back
        its value, its default, its modified bit and its validator; flags registered later keep theirs. */
    method RestoreToRegistry()
      requires mainRegistry.Valid() && Suits()
      modifies mainRegistry.flags.Values
      ensures mainRegistry.View() == Restored(old(mainRegistry.View()), States(backupRegistry))
      ensures States(backupRegistry) == old(States(backupRegistry))
    {
      hide FlagRegistry.View, States, Restored;
      ghost var view := mainRegistry.View();
      ghost var saved := States(backupRegistry);
      for i := 0 to |backupRegistry|
        invariant States(backupRegistry) == saved
        invariant mainRegistry.View() == Restored(view, States(backupRegistry[..i]))
      {
        var backup := backupRegistry[i];
        StatesOfLast(backupRegistry[..i], backup);
        assert backupRegistry[..i + 1] == backupRegistry[..i] + [backup];
        RestoredStep(view, States(backupRegistry[..i]), backup.name, backup.State());
        if backup.name in mainRegistry.flags {
          mainRegistry.CopyInto(backup.name, backup);
        }
      }
      assert backupRegistry[..|backupRegistry|] == backupRegistry;
    }
  }
}
