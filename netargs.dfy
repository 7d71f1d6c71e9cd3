/** The NetArgs engine of NetArgs/CommandLineArgs.cs: a dictionary of
    command entries (flag, option, collection, alias) typed by a
    `CommandType`. Its GetArgName, ExtractValueFromArg and SplitCommandLine
    are the functions of CommandLineHelper.

    An entry's default, requiredness and validator are set when it is
    registered and never written afterwards, so they are constants here; only
    `Value` changes. `Process` is specified by ResetStore (the reset pass),
    Walk (the token loop) and Passes (the validation pass) over a store that
    maps every entry object to its value. */
module NetArgs {
  import opened Common
  import opened CommandLineHelper

  /** The `CommandType` enum. */
  datatype CommandType = FlagType | OptionType | CollectionType

  /** The concrete subclass of a command entry. */
  datatype EntryKind = FlagKind | OptionKind | CollectionKind | AliasKind(reference: CommandEntry)

  class CommandEntry {
    const kind: EntryKind
    const defaultValue: Value
    const required: bool
    /** The `Validator` delegate of an option, `None` for `null`. */
    const validator: Option<Option<string> -> bool>
    /** The `Value` auto-property of a non-alias entry. */
    var value: Value
    /** Length of the alias chain that starts here. */
    ghost const depth: nat

    /** A flag's default is a bool and a collection's default an empty
        array. */
    ghost predicate Valid()
      decreases depth
    {
      match kind
      case AliasKind(r) => r.depth < depth && r.Valid()
      case FlagKind => defaultValue.VBool?
      case CollectionKind => defaultValue == VStrs([])
      case OptionKind => true
    }

    /** The entry at the end of the alias chain: an alias forwards `Value`,
        `DefaultValue`, `Required` and `Type` to it. */
    function Target(): (t: CommandEntry)
      requires Valid()
      ensures t.Valid() && !t.kind.AliasKind?
      ensures !kind.AliasKind? ==> t == this
      decreases depth
    {
      if kind.AliasKind? then kind.reference.Target() else this
    }

    /** `Type`: an alias reports the type of its target. */
    function Type(): (r: CommandType)
      requires Valid()
      ensures r == FlagType <==> Target().kind == FlagKind
      ensures r == CollectionType <==> Target().kind == CollectionKind
    {
      match Target().kind
      case FlagKind => FlagType
      case CollectionKind => CollectionType
      case _ => OptionType
    }

    /** `AddFlag`'s entry: the default is stored even when required, the
        value only when not required. */
    constructor FlagEntry(defaultValue: bool, required: bool)
      ensures Valid() && kind == FlagKind && depth == 0
      ensures this.defaultValue == VBool(defaultValue) && this.required == required && validator == None
      ensures value == if required then VNull else VBool(defaultValue)
    {
      kind := FlagKind;
      this.defaultValue := VBool(defaultValue);
      this.required := required;
      validator := None;
      value := if required then VNull else VBool(defaultValue);
      depth := 0;
    }

    /** `AddOption`'s entry, with the same rule for the value. */
    constructor OptionEntry(defaultValue: Option<string>, required: bool, validator: Option<Option<string> -> bool>)
      ensures Valid() && kind == OptionKind && depth == 0
      ensures this.defaultValue == (if defaultValue.None? then VNull else VStr(defaultValue.value))
      ensures this.required == required && this.validator == validator
      ensures value == if required || defaultValue.None? then VNull else VStr(defaultValue.value)
    {
      kind := OptionKind;
      this.defaultValue := if defaultValue.None? then VNull else VStr(defaultValue.value);
      this.required := required;
      this.validator := validator;
      value := if required || defaultValue.None? then VNull else VStr(defaultValue.value);
      depth := 0;
    }

    /** CommandEntryCollection's constructor: empty default and value, the
        option's `Required`, and no validator. The option must be a
        CommandEntryOption (a collection is one). */
    constructor CollectionEntry(option: CommandEntry)
      requires option.kind == OptionKind || option.kind == CollectionKind
      ensures Valid() && kind == CollectionKind && depth == 0
      ensures defaultValue == VStrs([]) && value == VStrs([]) && required == option.required && validator == None
    {
      kind := CollectionKind;
      defaultValue := VStrs([]);
      required := option.required;
      validator := None;
      value := VStrs([]);
      depth := 0;
    }

    /** CommandEntryAlias's constructor: its own properties are never read. */
    constructor AliasEntry(entry: CommandEntry)
      requires entry.Valid()
      ensures Valid() && kind == AliasKind(entry) && depth == entry.depth + 1
      ensures defaultValue == VNull && !required && validator == None && value == VNull
    {
      kind := AliasKind(entry);
      defaultValue := VNull;
      required := false;
      validator := None;
      value := VNull;
      depth := entry.depth + 1;
    }

    /** `DefaultValue` through the alias chain. */
    function DefaultValue(): (r: Value)
      requires Valid()
      ensures r == Target().defaultValue
      decreases depth
    {
      if kind.AliasKind? then kind.reference.DefaultValue() else defaultValue
    }

    /** `Required` through the alias chain. */
    function Required(): (r: bool)
      requires Valid()
      ensures r == Target().required
      decreases depth
    {
      if kind.AliasKind? then kind.reference.Required() else required
    }

    /** The `Value` getter through the alias chain. */
    function GetValue(): (r: Value)
      requires Valid()
      reads Target()
      ensures r == Target().value
      decreases depth
    {
      if kind.AliasKind? then kind.reference.GetValue() else value
    }

    /** The `Value` setter through the alias chain. */
    method SetValue(v: Value)
      requires Valid()
      modifies Target()`value
      ensures Target().value == v
      decreases depth
    {
      if kind.AliasKind? {
        kind.reference.SetValue(v);
      } else {
        value := v;
      }
    }

    /** `Validate(value as string)`. The base rule, which a flag keeps,
        rejects a blank or missing string when `Required`; an option, and so
        a collection, asks only its `Validator` and never looks at
        `Required`. */
    predicate Validate(s: Option<string>)
      requires Valid()
      ensures (kind == OptionKind || kind == CollectionKind) && validator.None? ==> Validate(s)
      ensures kind == FlagKind ==> (Validate(s) <==> !required || (s.Some? && !IsBlank(s.value)))
    {
      match kind
      case OptionKind => validator.None? || validator.value(s)
      case CollectionKind => validator.None? || validator.value(s)
      case _ => !Required() || !IsNullOrWhiteSpace(s)
    }
  }

  // ---------------------------------------------------------------------------
  // The specification of Process
  // ---------------------------------------------------------------------------

  /** The `Value` of every entry object the engine can reach. */
  type Store = map<CommandEntry, Value>

  ghost predicate WellFormed(reg: map<string, CommandEntry>) {
    forall n :: n in reg ==> reg[n].Valid()
  }

  /** The ends of the alias chains of the registered entries. */
  ghost function Targets(reg: map<string, CommandEntry>): (ts: set<CommandEntry>)
    requires WellFormed(reg)
    ensures forall n :: n in reg ==> reg[n].Target() in ts
    ensures forall t :: t in ts ==> t.Valid() && !t.kind.AliasKind?
  {
    set n | n in reg :: reg[n].Target()
  }

  /** The registered entries and the ends of their chains. */
  ghost function Objects(reg: map<string, CommandEntry>): (objs: set<CommandEntry>)
    requires WellFormed(reg)
    ensures forall n :: n in reg ==> reg[n] in objs && reg[n].Target() in objs
  {
    (set n | n in reg :: reg[n]) + Targets(reg)
  }

  ghost function StoreOf(objs: set<CommandEntry>): (st: Store)
    reads objs
    ensures st.Keys == objs
  {
    map o | o in objs :: o.value
  }

  /** The store holds every registered entry and the end of its chain. */
  ghost predicate Holds(reg: map<string, CommandEntry>, st: Store) {
    WellFormed(reg) && forall n :: n in reg ==> reg[n] in st && reg[n].Target() in st
  }

  /** The store holds every registered entry and the end of its chain; a
      flag holds a bool and a collection an array (the cast in `Process`
      needs one). */
  ghost predicate Covers(reg: map<string, CommandEntry>, st: Store) {
    WellFormed(reg)
    && (forall n :: n in reg ==> reg[n] in st && reg[n].Target() in st && Typed(reg[n].Target(), st))
  }

  /** A flag holds a bool and a collection an array. */
  ghost predicate Typed(t: CommandEntry, st: Store)
    requires t in st
  {
    (t.kind == FlagKind ==> st[t].VBool?) && (t.kind == CollectionKind ==> st[t].VStrs?)
  }

  /** The reset pass: `entry.Value = entry.DefaultValue` for every registered
      entry, which for an alias resets the end of its chain. */
  ghost function ResetStore(reg: map<string, CommandEntry>, st: Store): (r: Store)
    requires Holds(reg, st)
    ensures r.Keys == st.Keys && Covers(reg, r)
    ensures forall o :: o in st ==> r[o] == if o in Targets(reg) then o.defaultValue else st[o]
  {
    map o | o in st :: if o in Targets(reg) then o.defaultValue else st[o]
  }

  /** Where the token loop ends: the store, whether a token error occurred,
      and whether GetArgName threw. */
  datatype Walked = Walked(store: Store, errors: bool, threw: bool)

  /** What `Process` stores for a value token: a collection copies its array
      and appends the token, any other entry takes the token. */
  ghost function Store1(st: Store, t: CommandEntry, v: string): Value
    requires t in st
  {
    if t.kind == CollectionKind && st[t].VStrs? then VStrs(st[t].items + [Some(v)]) else VStr(v)
  }

  /** The token loop from token `i` on: dispatch on the entry's `Type`. A
      flag is set to `true`; an option or a collection takes the inline value
      or else the next token, whatever it is, and is an error with neither;
      a name that is not registered is an error and consumes nothing. */
  ghost function Walk(reg: map<string, CommandEntry>, parts: seq<string>, i: nat, st: Store, errors: bool): (r: Walked)
    requires Holds(reg, st)
    ensures r.store.Keys == st.Keys && Holds(reg, r.store)
    decreases |parts| - i
  {
    if i >= |parts| then Walked(st, errors, false)
    else
      match ArgName(parts[i])
      case None => Walked(st, errors, true)
      case Some(name) =>
        if name !in reg then Walk(reg, parts, i + 1, st, true)
        else
          var t := reg[name].Target();
          if t.kind == FlagKind then Walk(reg, parts, i + 1, st[t := VBool(true)], errors)
          else
            var inline := ExtractValueFromArg(parts[i]);
            if inline.Some? then Walk(reg, parts, i + 1, st[t := Store1(st, t, inline.value)], errors)
            else if i < |parts| - 1 then Walk(reg, parts, i + 2, st[t := Store1(st, t, parts[i + 1])], errors)
            else Walk(reg, parts, i + 1, st, true)
  }

  /** The validation pass: every registered entry that is not an alias
      accepts `Value as string`. */
  ghost predicate Passes(reg: map<string, CommandEntry>, st: Store)
    requires Holds(reg, st)
  {
    forall n :: n in reg && !reg[n].kind.AliasKind? ==> reg[n].Validate(AsString(st[reg[n]]))
  }

  /** `Threw` stands for the exception GetArgName can throw. */
  datatype Outcome = Threw | Returned(ok: bool)

  /** The validation pass runs only when the token loop returned. */
  ghost function Finish(reg: map<string, CommandEntry>, w: Walked): (Outcome, Store)
    requires Holds(reg, w.store)
  {
    if w.threw then (Threw, w.store)
    else (Returned(!w.errors && Passes(reg, w.store)), w.store)
  }

  /** What `Process(string)` does to a store. */
  ghost function ProcessSpec(reg: map<string, CommandEntry>, st: Store, args: string): (Outcome, Store)
    requires Holds(reg, st)
  {
    Finish(reg, Walk(reg, Split(args), 0, ResetStore(reg, st), false))
  }

  lemma StoreOfUpdate(objs: set<CommandEntry>, st: Store, t: CommandEntry, v: Value)
    requires st.Keys == objs && t in objs
    requires forall o :: o in objs ==> o.value == if o == t then v else st[o]
    ensures StoreOf(objs) == st[t := v]
  {
  }

  /** A write of a value of the entry's own type keeps the store covering. */
  lemma CoversUpdate(reg: map<string, CommandEntry>, st: Store, t: CommandEntry, v: Value)
    requires Covers(reg, st) && t in st
    requires t.kind == FlagKind ==> v.VBool?
    requires t.kind == CollectionKind ==> v.VStrs?
    ensures Covers(reg, st[t := v])
  {
  }

  /** The token `parts[i]` names a flag: the walk sets it to `true`. */
  lemma WalkSetsFlag(reg: map<string, CommandEntry>, parts: seq<string>, i: nat, st: Store, errors: bool,
                     name: string)
    requires Holds(reg, st) && i < |parts|
    requires ArgName(parts[i]) == Some(name) && name in reg && reg[name].Type() == FlagType
    ensures Walk(reg, parts, i, st, errors) == Walk(reg, parts, i + 1, st[reg[name].Target() := VBool(true)], errors)
  {
  }

  /** The token `parts[i]` names an entry that takes a value, and the value
      is the inline one or else the next token: the walk stores it. */
  lemma WalkTakesValue(reg: map<string, CommandEntry>, parts: seq<string>, i: nat, st: Store, errors: bool,
                       name: string, v: string, next: nat)
    requires Holds(reg, st) && i < |parts|
    requires ArgName(parts[i]) == Some(name) && name in reg && reg[name].Type() != FlagType
    requires var inline := ExtractValueFromArg(parts[i]);
             (inline == Some(v) && next == i + 1)
             || (inline.None? && i < |parts| - 1 && v == parts[i + 1] && next == i + 2)
    ensures var t := reg[name].Target();
            Walk(reg, parts, i, st, errors) == Walk(reg, parts, next, st[t := Store1(st, t, v)], errors)
  {
  }

  /** Values of `objs` once the ends of chains in `done` were reset. */
  ghost predicate ResetSoFar(objs: set<CommandEntry>, st0: Store, done: set<CommandEntry>)
    reads objs
  {
    forall o :: o in objs ==> o in st0 && o.value == if o in done then o.defaultValue else st0[o]
  }

  // ---------------------------------------------------------------------------
  // The engine
  // ---------------------------------------------------------------------------

  class CommandLineArgs {
    var commands: map<string, CommandEntry>

    ghost predicate Valid()
      reads this
    {
      WellFormed(commands)
    }

    constructor ()
      ensures Valid() && commands == map[]
    {
      commands := map[];
    }

    /** `AddAlias`: `false` stands for the KeyNotFoundException for an
        unregistered original; otherwise the alias refers to the entry
        object registered now. */
    method AddAlias(originalName: string, alias: string) returns (ok: bool)
      requires Valid()
      modifies this`commands
      ensures Valid()
      ensures ok <==> originalName in old(commands)
      ensures !ok ==> commands == old(commands)
      ensures ok ==> alias in commands && fresh(commands[alias])
                     && commands == old(commands)[alias := commands[alias]]
                     && commands[alias].kind == AliasKind(old(commands)[originalName])
    {
      if originalName !in commands {
        return false;
      }
      var entry := new CommandEntry.AliasEntry(commands[originalName]);
      commands := commands[alias := entry];
      ok := true;
    }

    /** `AddFlag`: a new flag entry under `name`, replacing any entry. */
    method AddFlag(name: string, required: bool, defaultValue: bool)
      requires Valid()
      modifies this`commands
      ensures Valid() && name in commands && fresh(commands[name])
      ensures commands == old(commands)[name := commands[name]]
      ensures commands[name].kind == FlagKind && commands[name].required == required
      ensures commands[name].defaultValue == VBool(defaultValue)
      ensures commands[name].value == if required then VNull else VBool(defaultValue)
    {
      var entry := new CommandEntry.FlagEntry(defaultValue, required);
      commands := commands[name := entry];
    }

    /** `AddOption`: a new option entry under `name`, replacing any entry. */
    method AddOption(name: string, required: bool, defaultValue: Option<string>,
                     validator: Option<Option<string> -> bool>)
      requires Valid()
      modifies this`commands
      ensures Valid() && name in commands && fresh(commands[name])
      ensures commands == old(commands)[name := commands[name]]
      ensures commands[name].kind == OptionKind && commands[name].required == required
      ensures commands[name].validator == validator
      ensures commands[name].defaultValue == if defaultValue.None? then VNull else VStr(defaultValue.value)
      ensures commands[name].value == if required || defaultValue.None? then VNull else VStr(defaultValue.value)
    {
      var entry := new CommandEntry.OptionEntry(defaultValue, required, validator);
      commands := commands[name := entry];
    }

    /** `SetCollection`: `false` stands for the KeyNotFoundException for an
        unregistered name; otherwise the option under `name` is replaced by
        an empty collection that keeps its `Required` (`min` and `max` are
        ignored). The entry must be an option or a collection. */
    method SetCollection(name: string) returns (ok: bool)
      requires Valid()
      requires name in commands ==> commands[name].kind == OptionKind || commands[name].kind == CollectionKind
      modifies this`commands
      ensures Valid()
      ensures ok <==> name in old(commands)
      ensures !ok ==> commands == old(commands)
      ensures ok ==> name in commands && fresh(commands[name])
                     && commands == old(commands)[name := commands[name]]
                     && commands[name].kind == CollectionKind
                     && commands[name].required == old(commands)[name].required
                     && commands[name].value == VStrs([]) && commands[name].defaultValue == VStrs([])
    {
      if name !in commands {
        return false;
      }
      var entry := new CommandEntry.CollectionEntry(commands[name]);
      commands := commands[name := entry];
      ok := true;
    }

    /** `GetFlag`: `None` stands for the KeyNotFoundException for a missing
        name or an entry whose `Type` is not a flag; the `(bool)` cast needs
        a bool value. */
    function GetFlag(flag: string): (r: Option<bool>)
      requires Valid()
      requires flag in commands && commands[flag].Type() == FlagType ==> commands[flag].GetValue().VBool?
      reads this, set n | n in commands :: commands[n].Target()
      ensures r.None? <==> flag !in commands || commands[flag].Type() != FlagType
      ensures r.Some? ==> VBool(r.value) == commands[flag].Target().value
    {
      if flag !in commands || commands[flag].Type() != FlagType then None
      else Some(commands[flag].GetValue().b)
    }

    /** `GetOption`: `None` stands for the KeyNotFoundException; the value is
        `Value as string`. */
    function GetOption(name: string): (r: Option<Option<string>>)
      requires Valid()
      reads this, set n | n in commands :: commands[n].Target()
      ensures r.None? <==> name !in commands || commands[name].Type() != OptionType
      ensures r.Some? ==> r.value == AsString(commands[name].Target().value)
    {
      if name !in commands || commands[name].Type() != OptionType then None
      else Some(AsString(commands[name].GetValue()))
    }

    /** `GetCollection`: `None` stands for the KeyNotFoundException; the
        `(string[])` cast needs an array value. */
    function GetCollection(name: string): (r: Option<seq<Option<string>>>)
      requires Valid()
      requires name in commands && commands[name].Type() == CollectionType ==> commands[name].GetValue().VStrs?
      reads this, set n | n in commands :: commands[n].Target()
      ensures r.None? <==> name !in commands || commands[name].Type() != CollectionType
      ensures r.Some? ==> VStrs(r.value) == commands[name].Target().value
    {
      if name !in commands || commands[name].Type() != CollectionType then None
      else Some(commands[name].GetValue().items)
    }

    /** The private `Reset`: `entry.Value = entry.DefaultValue` for every
        entry; entries that share an end of chain reset it to the same
        value. */
    method Reset()
      requires Valid()
      modifies Objects(commands)`value
      ensures StoreOf(Objects(commands)) == ResetStore(commands, old(StoreOf(Objects(commands))))
    {
      ghost var objs := Objects(commands);
      ghost var st0 := StoreOf(objs);
      var todo := commands.Values;
      ghost var done: set<CommandEntry> := {};
      while todo != {}
        invariant todo <= commands.Values && done <= Targets(commands)
        invariant forall e :: e in commands.Values - todo ==> e.Target() in done
        invariant ResetSoFar(objs, st0, done)
        decreases todo
      {
        var e :| e in todo;
        ResetOne(e, objs, st0, done);
        done := done + {e.Target()};
        todo := todo - {e};
      }
      assert done == Targets(commands);
    }

    /** One step of the reset loop. */
    method ResetOne(e: CommandEntry, ghost objs: set<CommandEntry>, ghost st0: Store, ghost done: set<CommandEntry>)
      requires e.Valid() && e.Target() in objs && ResetSoFar(objs, st0, done)
      modifies e.Target()`value
      ensures ResetSoFar(objs, st0, done + {e.Target()})
    {
      e.SetValue(e.DefaultValue());
    }

    /** The private `Validate`: every entry that is not an alias must accept
        `Value as string`. */
    method Validate() returns (ok: bool)
      requires Valid()
      ensures ok == Passes(commands, StoreOf(Objects(commands)))
    {
      ghost var st := StoreOf(Objects(commands));
      var errors := false;
      var names := commands.Keys;
      while names != {}
        invariant names <= commands.Keys
        invariant errors <==> exists n :: n in commands.Keys - names && !commands[n].kind.AliasKind?
                                && !commands[n].Validate(AsString(st[commands[n]]))
        decreases names
      {
        var n :| n in names;
        var entry := commands[n];
        if !entry.kind.AliasKind? {
          if !entry.Validate(AsString(entry.GetValue())) {
            errors := true;
          }
        }
        names := names - {n};
      }
      ok := !errors;
    }

    /** The store update of one `entry.Value = v`, with a value of the
        entry's own type. */
    method Put(entry: CommandEntry, v: Value)
      requires Valid() && entry in commands.Values && Covers(commands, StoreOf(Objects(commands)))
      requires entry.Target().kind == FlagKind ==> v.VBool?
      requires entry.Target().kind == CollectionKind ==> v.VStrs?
      modifies Objects(commands)`value
      ensures StoreOf(Objects(commands)) == old(StoreOf(Objects(commands)))[entry.Target() := v]
      ensures Covers(commands, StoreOf(Objects(commands)))
    {
      ghost var objs := Objects(commands);
      ghost var st := StoreOf(objs);
      CoversUpdate(commands, st, entry.Target(), v);
      entry.SetValue(v);
      StoreOfUpdate(objs, st, entry.Target(), v);
    }

    /** One pass of the token loop of `Process` from token `i`. */
    method Step(parts: seq<string>, i: nat, errors: bool) returns (next: nat, errorsAfter: bool, threw: bool)
      requires Valid() && i < |parts| && Covers(commands, StoreOf(Objects(commands)))
      modifies Objects(commands)`value
      ensures i < next <= |parts| && Covers(commands, StoreOf(Objects(commands)))
      ensures var w := Walk(commands, parts, i, old(StoreOf(Objects(commands))), errors);
              if threw then w == Walked(StoreOf(Objects(commands)), errorsAfter, true)
              else w == Walk(commands, parts, next, StoreOf(Objects(commands)), errorsAfter)
    {
      ghost var st := StoreOf(Objects(commands));
      errorsAfter, threw := errors, false;
      next := i + 1;
      var arg := GetArgName(parts[i]);
      assert StoreOf(Objects(commands)) == st;
      if arg.None? {
        threw := true;
        return;
      }
      if arg.value !in commands {
        errorsAfter := true;
        return;
      }
      next, errorsAfter := Apply(parts, i, errors, arg.value);
    }

    /** The token `parts[i]` names the registered entry `name`: a flag is set
        to `true`; an option or a collection takes a value. */
    method Apply(parts: seq<string>, i: nat, errors: bool, name: string) returns (next: nat, errorsAfter: bool)
      requires Valid() && i < |parts| && Covers(commands, StoreOf(Objects(commands)))
      requires ArgName(parts[i]) == Some(name) && name in commands
      modifies Objects(commands)`value
      ensures i < next <= |parts| && Covers(commands, StoreOf(Objects(commands)))
      ensures Walk(commands, parts, i, old(StoreOf(Objects(commands))), errors)
              == Walk(commands, parts, next, StoreOf(Objects(commands)), errorsAfter)
    {
      ghost var st := StoreOf(Objects(commands));
      errorsAfter := errors;
      next := i + 1;
      var entry := commands[name];
      ghost var t := entry.Target();
      assert t in st;
      if entry.Type() == FlagType {
        WalkSetsFlag(commands, parts, i, st, errors, name);
        Put(entry, VBool(true));
      } else {
        next, errorsAfter := ApplyValue(parts, i, errors, name);
      }
    }

    /** An option or a collection takes the inline value or else the next
        token; with neither, the token is an error. */
    method ApplyValue(parts: seq<string>, i: nat, errors: bool, name: string) returns (next: nat, errorsAfter: bool)
      requires Valid() && i < |parts| && Covers(commands, StoreOf(Objects(commands)))
      requires ArgName(parts[i]) == Some(name) && name in commands && commands[name].Type() != FlagType
      modifies Objects(commands)`value
      ensures i < next <= |parts| && Covers(commands, StoreOf(Objects(commands)))
      ensures Walk(commands, parts, i, old(StoreOf(Objects(commands))), errors)
              == Walk(commands, parts, next, StoreOf(Objects(commands)), errorsAfter)
    {
      ghost var st := StoreOf(Objects(commands));
      errorsAfter := errors;
      next := i + 1;
      var entry := commands[name];
      ghost var t := entry.Target();
      assert t in st;
      var value := ExtractValueFromArg(parts[i]);
      if value.None? && i < |parts| - 1 {
        value := Some(parts[i + 1]);
        next := i + 2;
      }
      if value.None? {
        errorsAfter := true;
        return;
      }
      WalkTakesValue(commands, parts, i, st, errors, name, value.value, next);
      if entry.Type() == CollectionType {
        var values := entry.GetValue().items + [Some(value.value)];
        assert VStrs(values) == Store1(st, t, value.value);
        Put(entry, VStrs(values));
      } else {
        Put(entry, VStr(value.value));
      }
    }

    /** The token loop of `Process`. */
    method WalkTokens(parts: seq<string>) returns (errors: bool, threw: bool)
      requires Valid() && Covers(commands, StoreOf(Objects(commands)))
      modifies Objects(commands)`value
      ensures Covers(commands, StoreOf(Objects(commands)))
      ensures Walked(StoreOf(Objects(commands)), errors, threw)
              == Walk(commands, parts, 0, old(StoreOf(Objects(commands))), false)
    {
      ghost var objs := Objects(commands);
      ghost var goal := Walk(commands, parts, 0, StoreOf(objs), false);
      errors, threw := false, false;
      var i := 0;
      while i < |parts|
        invariant 0 <= i <= |parts| && Covers(commands, StoreOf(objs))
        invariant Walk(commands, parts, i, StoreOf(objs), errors) == goal
        decreases |parts| - i
      {
        i, errors, threw := Step(parts, i, errors);
        if threw {
          return;
        }
      }
    }

    /** `Process(string)`: reset, walk the tokens, then validate when no
        token error occurred. */
    method Process(args: string) returns (outcome: Outcome)
      requires Valid()
      modifies Objects(commands)`value
      ensures (outcome, StoreOf(Objects(commands))) == ProcessSpec(commands, old(StoreOf(Objects(commands))), args)
    {
      ghost var objs := Objects(commands);
      ghost var reset := ResetStore(commands, StoreOf(objs));
      Reset();
      var parts := SplitCommandLine(args);
      assert StoreOf(objs) == reset;
      var errors, threw := WalkTokens(parts);
      if threw {
        return Threw;
      }
      if !errors {
        var valid := Validate();
        errors := !valid;
      }
      outcome := Returned(!errors);
    }

    /** `Process(string[])`: the arguments joined by single spaces. */
    method ProcessArgs(args: seq<string>) returns (outcome: Outcome)
      requires Valid()
      modifies Objects(commands)`value
      ensures (outcome, StoreOf(Objects(commands)))
              == ProcessSpec(commands, old(StoreOf(Objects(commands))), JoinWords(args))
    {
      outcome := Process(JoinWords(args));
    }
  }

}

/** Properties of the NetArgs engine, stated on the specification of
    `Process`. */
module NetArgsProperties {
  import opened Common
  import opened CommandLineHelper
  import opened NetArgs

  // ---------------------------------------------------------------------------
  // Process again: idempotence
  // ---------------------------------------------------------------------------

  lemma ResetAfterWrite(reg: map<string, CommandEntry>, st: Store, n: string, v: Value)
    requires Holds(reg, st) && n in reg
    ensures ResetStore(reg, st[reg[n].Target() := v]) == ResetStore(reg, st)
  {
    var t := reg[n].Target();
    assert forall o :: o in st ==> ResetStore(reg, st[t := v])[o] == ResetStore(reg, st)[o];
  }

  /** The token loop writes only to ends of alias chains, which the reset
      pass overwrites. */
  lemma {:induction false} ResetAfterWalk(reg: map<string, CommandEntry>, parts: seq<string>, i: nat, st: Store,
                                          errors: bool)
    requires Holds(reg, st)
    ensures ResetStore(reg, Walk(reg, parts, i, st, errors).store) == ResetStore(reg, st)
    decreases |parts| - i
  {
    if i < |parts| && ArgName(parts[i]).Some? {
      var name := ArgName(parts[i]).value;
      if name !in reg {
        ResetAfterWalk(reg, parts, i + 1, st, true);
      } else {
        var t := reg[name].Target();
        if t.kind == FlagKind {
          ResetAfterWalk(reg, parts, i + 1, st[t := VBool(true)], errors);
          ResetAfterWrite(reg, st, name, VBool(true));
        } else {
          var inline := ExtractValueFromArg(parts[i]);
          if inline.Some? {
            ResetAfterWalk(reg, parts, i + 1, st[t := Store1(st, t, inline.value)], errors);
            ResetAfterWrite(reg, st, name, Store1(st, t, inline.value));
          } else if i < |parts| - 1 {
            ResetAfterWalk(reg, parts, i + 2, st[t := Store1(st, t, parts[i + 1])], errors);
            ResetAfterWrite(reg, st, name, Store1(st, t, parts[i + 1]));
          } else {
            ResetAfterWalk(reg, parts, i + 1, st, true);
          }
        }
      }
    }
  }

  lemma ResetStoreIdempotent(reg: map<string, CommandEntry>, st: Store)
    requires Holds(reg, st)
    ensures ResetStore(reg, ResetStore(reg, st)) == ResetStore(reg, st)
  {
    assert forall o :: o in st ==> ResetStore(reg, ResetStore(reg, st))[o] == ResetStore(reg, st)[o];
  }

  /** Processing the same command line twice gives the outcome and the
      values of processing it once: an alias resets the end of its chain, so
      every value the token loop can write is reset by the next run. */
  lemma ProcessIsIdempotent(reg: map<string, CommandEntry>, st: Store, args: string)
    requires Holds(reg, st)
    ensures Holds(reg, ProcessSpec(reg, st, args).1)
    ensures ProcessSpec(reg, ProcessSpec(reg, st, args).1, args) == ProcessSpec(reg, st, args)
  {
    var r := ResetStore(reg, st);
    ResetAfterWalk(reg, Split(args), 0, r, false);
    ResetStoreIdempotent(reg, st);
  }

  // ---------------------------------------------------------------------------
  // One token at a time
  // ---------------------------------------------------------------------------

  /** An entry whose `Type` is not a flag (an option, a collection, or an
      alias of one) takes the value written after `=` or `:` in its own
      token, and the write lands at the end of the alias chain. */
  lemma WalkInlineValue(reg: map<string, CommandEntry>, parts: seq<string>, i: nat, st: Store, errors: bool,
                        p: string, n: string, sep: char, v: string)
    requires Holds(reg, st) && i < |parts|
    requires AllPrefixes(p) && GoodName(n) && IsSeparator(sep) && NoSeparators(v)
    requires parts[i] == p + n + [sep] + v
    requires n in reg && reg[n].Type() != FlagType
    ensures var t := reg[n].Target();
            Walk(reg, parts, i, st, errors) == Walk(reg, parts, i + 1, st[t := Store1(st, t, v)], errors)
  {
    var tok := parts[i];
    assert ArgName(tok) == Some(n) by {
      ArgNameOfSpelledToken(p, n, [sep] + v);
      assert p + n + ([sep] + v) == tok;
    }
    assert ExtractValueFromArg(tok) == Some(v) by {
      ExtractValueOfSpelledToken(p, n, [sep] + v);
      assert p + n + ([sep] + v) == tok;
      assert ([sep] + v)[1..] == v;
    }
  }

  /** Without an inline value, such an entry takes the next token, whatever
      it is. */
  lemma WalkNextTokenValue(reg: map<string, CommandEntry>, parts: seq<string>, i: nat, st: Store, errors: bool,
                           p: string, n: string)
    requires Holds(reg, st) && i + 1 < |parts|
    requires AllPrefixes(p) && GoodName(n) && parts[i] == p + n
    requires n in reg && reg[n].Type() != FlagType
    ensures var t := reg[n].Target();
            Walk(reg, parts, i, st, errors) == Walk(reg, parts, i + 2, st[t := Store1(st, t, parts[i + 1])], errors)
  {
    ArgNameOfSpelledToken(p, n, []);
    ExtractValueOfSpelledToken(p, n, []);
    assert p + n + [] == parts[i];
  }

  /** Such an entry named by the last token without an inline value is an
      error and changes nothing. */
  lemma WalkMissingValue(reg: map<string, CommandEntry>, parts: seq<string>, st: Store, errors: bool,
                         p: string, n: string)
    requires Holds(reg, st) && parts != []
    requires AllPrefixes(p) && GoodName(n) && parts[|parts| - 1] == p + n
    requires n in reg && reg[n].Type() != FlagType
    ensures Walk(reg, parts, |parts| - 1, st, errors) == Walked(st, true, false)
  {
    ArgNameOfSpelledToken(p, n, []);
    ExtractValueOfSpelledToken(p, n, []);
    assert p + n + [] == parts[|parts| - 1];
  }

  /** A flag, or an alias of one, is set to `true` by its token; anything
      written after a separator in the token is ignored. */
  lemma WalkFlag(reg: map<string, CommandEntry>, parts: seq<string>, i: nat, st: Store, errors: bool,
                 p: string, n: string, tail: string)
    requires Holds(reg, st) && i < |parts|
    requires AllPrefixes(p) && GoodName(n) && parts[i] == p + n + tail
    requires tail == [] || (IsSeparator(tail[0]) && NoSeparators(tail[1..]))
    requires n in reg && reg[n].Type() == FlagType
    ensures Walk(reg, parts, i, st, errors) == Walk(reg, parts, i + 1, st[reg[n].Target() := VBool(true)], errors)
  {
    ArgNameOfSpelledToken(p, n, tail);
  }

  /** An error is never cleared by later tokens. */
  lemma {:induction false} WalkErrorsStay(reg: map<string, CommandEntry>, parts: seq<string>, i: nat, st: Store)
    requires Holds(reg, st)
    ensures Walk(reg, parts, i, st, true).errors
    decreases |parts| - i
  {
    if i < |parts| && ArgName(parts[i]).Some? {
      var name := ArgName(parts[i]).value;
      if name !in reg {
        WalkErrorsStay(reg, parts, i + 1, st);
      } else {
        var t := reg[name].Target();
        if t.kind == FlagKind {
          WalkErrorsStay(reg, parts, i + 1, st[t := VBool(true)]);
        } else {
          var inline := ExtractValueFromArg(parts[i]);
          if inline.Some? {
            WalkErrorsStay(reg, parts, i + 1, st[t := Store1(st, t, inline.value)]);
          } else if i < |parts| - 1 {
            WalkErrorsStay(reg, parts, i + 2, st[t := Store1(st, t, parts[i + 1])]);
          } else {
            WalkErrorsStay(reg, parts, i + 1, st);
          }
        }
      }
    }
  }

  /** A token whose name is not registered consumes only itself, and the
      command line can then no longer succeed. */
  lemma WalkUnknownName(reg: map<string, CommandEntry>, parts: seq<string>, i: nat, st: Store, errors: bool)
    requires Holds(reg, st) && i < |parts|
    requires ArgName(parts[i]).Some? && ArgName(parts[i]).value !in reg
    ensures Walk(reg, parts, i, st, errors) == Walk(reg, parts, i + 1, st, true)
    ensures Walk(reg, parts, i, st, errors).errors
  {
    WalkErrorsStay(reg, parts, i + 1, st);
  }

  // ---------------------------------------------------------------------------
  // Whole command lines
  // ---------------------------------------------------------------------------

  /** A command line of plain words walks those words. */
  lemma ProcessOfPlainWords(reg: map<string, CommandEntry>, st: Store, ws: seq<string>)
    requires Holds(reg, st)
    requires forall k :: 0 <= k < |ws| ==> PlainWord(ws[k])
    ensures ProcessSpec(reg, st, JoinWords(ws)) == Finish(reg, Walk(reg, ws, 0, ResetStore(reg, st), false))
  {
    SplitJoinWords(ws);
  }

  /** The empty command line resets every entry and validates. */
  lemma ProcessEmpty(reg: map<string, CommandEntry>, st: Store)
    requires Holds(reg, st)
    ensures ProcessSpec(reg, st, "") == (Returned(Passes(reg, ResetStore(reg, st))), ResetStore(reg, st))
  {
    ProcessOfPlainWords(reg, st, []);
  }

  // ---------------------------------------------------------------------------
  // Entries the command line does not name
  // ---------------------------------------------------------------------------

  /** No token from `i` on names an entry whose chain ends at `t`. */
  ghost predicate NotNamed(reg: map<string, CommandEntry>, parts: seq<string>, i: nat, t: CommandEntry)
    requires WellFormed(reg)
  {
    forall k :: i <= k < |parts| && ArgName(parts[k]).Some? && ArgName(parts[k]).value in reg ==>
      reg[ArgName(parts[k]).value].Target() != t
  }

  /** The token loop leaves alone the value of an object that no token
      names. */
  lemma {:induction false} WalkLeavesUnnamed(reg: map<string, CommandEntry>, parts: seq<string>, i: nat, st: Store,
                                             errors: bool, o: CommandEntry)
    requires Holds(reg, st) && o in st && NotNamed(reg, parts, i, o)
    ensures Walk(reg, parts, i, st, errors).store[o] == st[o]
    decreases |parts| - i
  {
    if i < |parts| && ArgName(parts[i]).Some? {
      var name := ArgName(parts[i]).value;
      assert NotNamed(reg, parts, i + 1, o);
      if name !in reg {
        WalkLeavesUnnamed(reg, parts, i + 1, st, true, o);
      } else {
        var t := reg[name].Target();
        if t.kind == FlagKind {
          WalkLeavesUnnamed(reg, parts, i + 1, st[t := VBool(true)], errors, o);
        } else {
          var inline := ExtractValueFromArg(parts[i]);
          if inline.Some? {
            WalkLeavesUnnamed(reg, parts, i + 1, st[t := Store1(st, t, inline.value)], errors, o);
          } else if i < |parts| - 1 {
            assert NotNamed(reg, parts, i + 2, o);
            WalkLeavesUnnamed(reg, parts, i + 2, st[t := Store1(st, t, parts[i + 1])], errors, o);
          } else {
            WalkLeavesUnnamed(reg, parts, i + 1, st, true, o);
          }
        }
      }
    }
  }

  /** An entry that the command line does not name holds, after `Process`,
      its `DefaultValue`: the reset pass writes it to the end of the chain
      and no token overwrites it. */
  lemma OmittedReadsDefault(reg: map<string, CommandEntry>, st: Store, args: string, n: string)
    requires Holds(reg, st) && n in reg && NotNamed(reg, Split(args), 0, reg[n].Target())
    ensures ProcessSpec(reg, st, args).1[reg[n].Target()] == reg[n].DefaultValue()
  {
    WalkLeavesUnnamed(reg, Split(args), 0, ResetStore(reg, st), false, reg[n].Target());
  }

  /** The getters after `Process` of a command line that does not name the
      entry return its default: the flag's bool, the option's default as a
      string, and an empty array for a collection. */
  method OmittedGettersReadDefault(c: CommandLineArgs, args: string, n: string)
      returns (flag: Option<bool>, option: Option<Option<string>>, collection: Option<seq<Option<string>>>)
    requires c.Valid() && n in c.commands && NotNamed(c.commands, Split(args), 0, c.commands[n].Target())
    modifies Objects(c.commands)`value
    ensures c.commands[n].Type() == FlagType ==> flag == Some(c.commands[n].DefaultValue().b)
    ensures c.commands[n].Type() == OptionType ==> option == Some(AsString(c.commands[n].DefaultValue()))
    ensures c.commands[n].Type() == CollectionType ==> collection == Some([])
  {
    ghost var st := StoreOf(Objects(c.commands));
    var _ := c.Process(args);
    OmittedReadsDefault(c.commands, st, args, n);
    flag := c.GetFlag(n);
    option := c.GetOption(n);
    collection := c.GetCollection(n);
  }

  /** A required flag can never pass: its value is a bool, `Value as string`
      is null, and the base rule rejects a missing string when `Required`.
      So no command line, not even one that sets the flag, succeeds. */
  lemma RequiredFlagNeverPasses(reg: map<string, CommandEntry>, st: Store, args: string, n: string)
    requires Holds(reg, st) && n in reg && reg[n].kind == FlagKind && reg[n].required
    ensures ProcessSpec(reg, st, args).0 != Returned(true)
  {
    var w := Walk(reg, Split(args), 0, ResetStore(reg, st), false);
    WalkKeepsCovers(reg, Split(args), 0, ResetStore(reg, st), false);
    var e := reg[n];
    assert e.Target() == e;
    assert w.store[e].VBool?;
    assert !e.Validate(AsString(w.store[e]));
  }

  /** The token loop stores values of each entry's own type: a bool in a
      flag, an array in a collection. */
  lemma {:induction false} WalkKeepsCovers(reg: map<string, CommandEntry>, parts: seq<string>, i: nat, st: Store,
                                           errors: bool)
    requires Covers(reg, st)
    ensures Covers(reg, Walk(reg, parts, i, st, errors).store)
    decreases |parts| - i
  {
    if i < |parts| && ArgName(parts[i]).Some? {
      var name := ArgName(parts[i]).value;
      if name !in reg {
        WalkKeepsCovers(reg, parts, i + 1, st, true);
      } else {
        var t := reg[name].Target();
        if t.kind == FlagKind {
          CoversUpdate(reg, st, t, VBool(true));
          WalkKeepsCovers(reg, parts, i + 1, st[t := VBool(true)], errors);
        } else {
          var inline := ExtractValueFromArg(parts[i]);
          if inline.Some? {
            CoversUpdate(reg, st, t, Store1(st, t, inline.value));
            WalkKeepsCovers(reg, parts, i + 1, st[t := Store1(st, t, inline.value)], errors);
          } else if i < |parts| - 1 {
            CoversUpdate(reg, st, t, Store1(st, t, parts[i + 1]));
            WalkKeepsCovers(reg, parts, i + 2, st[t := Store1(st, t, parts[i + 1])], errors);
          } else {
            WalkKeepsCovers(reg, parts, i + 1, st, true);
          }
        }
      }
    }
  }

  /** An option without a validator accepts a missing value even when it is
      registered as required: `Required` is never consulted for options. */
  lemma RequiredOptionNotEnforced(reg: map<string, CommandEntry>, st: Store, n: string)
    requires Holds(reg, st) && reg.Keys == {n}
    requires reg[n].kind == OptionKind && reg[n].required && reg[n].validator.None?
    requires reg[n].defaultValue == VNull
    ensures ProcessSpec(reg, st, "") == (Returned(true), ResetStore(reg, st))
    ensures ResetStore(reg, st)[reg[n]] == VNull
  {
    ProcessEmpty(reg, st);
    assert reg[n].Target() == reg[n];
  }

  /** The token of an alias of an option takes a value, which lands in the
      option: an alias reports the `Type` of its target. */
  lemma OptionThroughAlias(reg: map<string, CommandEntry>, st: Store, opt: string, alias: string,
                           p: string, sep: char, v: string)
    requires Holds(reg, st) && opt != alias && reg.Keys == {opt, alias}
    requires reg[opt].kind == OptionKind && reg[opt].validator.None? && reg[alias].kind == AliasKind(reg[opt])
    requires AllPrefixes(p) && GoodName(alias) && IsSeparator(sep) && NoSeparators(v)
    requires PlainWord(p + alias + [sep] + v)
    ensures ProcessSpec(reg, st, p + alias + [sep] + v)
            == (Returned(true), ResetStore(reg, st)[reg[opt] := VStr(v)])
  {
    var tok := p + alias + [sep] + v;
    var o := reg[opt];
    var r := ResetStore(reg, st);
    ProcessOfPlainWords(reg, st, [tok]);
    var w := Walk(reg, [tok], 0, r, false);
    assert w == Walked(r[o := VStr(v)], false, false) by {
      assert reg[alias].Target() == o;
      WalkInlineValue(reg, [tok], 0, r, false, p, alias, sep, v);
      assert Store1(r, o, v) == VStr(v);
    }
    OnlyAliasAndOptionPass(reg, w.store, opt, alias);
  }

  /** An option without a validator and an alias: validation always passes. */
  lemma OnlyAliasAndOptionPass(reg: map<string, CommandEntry>, st: Store, opt: string, alias: string)
    requires Holds(reg, st) && reg.Keys == {opt, alias}
    requires reg[opt].kind == OptionKind && reg[opt].validator.None? && reg[alias].kind.AliasKind?
    ensures Passes(reg, st)
  {
  }

  /** Of two values given to one option, the later wins. */
  lemma LastValueWins(reg: map<string, CommandEntry>, st: Store, n: string,
                      p1: string, s1: char, v1: string, p2: string, s2: char, v2: string)
    requires Holds(reg, st) && n in reg && reg[n].Type() == OptionType
    requires AllPrefixes(p1) && AllPrefixes(p2) && GoodName(n)
    requires IsSeparator(s1) && IsSeparator(s2) && NoSeparators(v1) && NoSeparators(v2)
    ensures var parts := [p1 + n + [s1] + v1, p2 + n + [s2] + v2];
            Walk(reg, parts, 0, st, false).store[reg[n].Target()] == VStr(v2)
  {
    var parts := [p1 + n + [s1] + v1, p2 + n + [s2] + v2];
    var t := reg[n].Target();
    WalkInlineValue(reg, parts, 0, st, false, p1, n, s1, v1);
    var st1 := st[t := Store1(st, t, v1)];
    WalkInlineValue(reg, parts, 1, st1, false, p2, n, s2, v2);
  }

  /** The token of a collection with an inline value appends that value. */
  lemma WalkAppends(reg: map<string, CommandEntry>, parts: seq<string>, i: nat, st: Store, errors: bool,
                    p: string, n: string, sep: char, v: string)
    requires Covers(reg, st) && i < |parts|
    requires AllPrefixes(p) && GoodName(n) && IsSeparator(sep) && NoSeparators(v)
    requires parts[i] == p + n + [sep] + v
    requires n in reg && reg[n].Type() == CollectionType
    ensures var t := reg[n].Target();
            st[t].VStrs? && Covers(reg, st[t := VStrs(st[t].items + [Some(v)])])
            && Walk(reg, parts, i, st, errors)
               == Walk(reg, parts, i + 1, st[t := VStrs(st[t].items + [Some(v)])], errors)
  {
    var t := reg[n].Target();
    assert st[t].VStrs?;
    CoversUpdate(reg, st, t, VStrs(st[t].items + [Some(v)]));
    WalkInlineValue(reg, parts, i, st, errors, p, n, sep, v);
  }

  /** A collection gathers the values of its tokens in command-line order,
      after the values it held when the walk started. */
  lemma CollectionGathersInOrder(reg: map<string, CommandEntry>, st: Store, n: string,
                                 p1: string, s1: char, v1: string, p2: string, s2: char, v2: string)
    requires Covers(reg, st) && n in reg && reg[n].Type() == CollectionType
    requires AllPrefixes(p1) && AllPrefixes(p2) && GoodName(n)
    requires IsSeparator(s1) && IsSeparator(s2) && NoSeparators(v1) && NoSeparators(v2)
    ensures var parts := [p1 + n + [s1] + v1, p2 + n + [s2] + v2];
            var t := reg[n].Target();
            Walk(reg, parts, 0, st, false).store[t] == VStrs(st[t].items + [Some(v1), Some(v2)])
  {
    var parts := [p1 + n + [s1] + v1, p2 + n + [s2] + v2];
    var t := reg[n].Target();
    WalkAppends(reg, parts, 0, st, false, p1, n, s1, v1);
    var st1 := st[t := VStrs(st[t].items + [Some(v1)])];
    WalkAppends(reg, parts, 1, st1, false, p2, n, s2, v2);
    var st2 := st1[t := VStrs(st1[t].items + [Some(v2)])];
    assert Walk(reg, parts, 2, st2, false).store == st2;
    assert st1[t].items + [Some(v2)] == st[t].items + [Some(v1), Some(v2)];
  }

  // ---------------------------------------------------------------------------
  // Getters
  // ---------------------------------------------------------------------------

  /** An alias reads the value of the entry it was registered for, and
      reports it under the same getter. */
  lemma GetOptionThroughAlias(c: CommandLineArgs, original: string, alias: string)
    requires c.Valid() && original in c.commands && alias in c.commands
    requires c.commands[alias].kind == AliasKind(c.commands[original])
    ensures c.GetOption(alias) == c.GetOption(original)
  {
  }
}
