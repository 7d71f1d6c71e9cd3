/** The DotArgs engine of DotArgs/CommandLineArgs.cs, with the older argument
    classes that file embeds: `GetValue`/`SetValue` methods, a private stored
    value, and no alias forwarding of `Validate` or `Reset`.

    `Process` is specified by three functions over a store that maps every
    argument object to its value storage: ResetStore (the reset pass), Walk
    (the token loop) and Passes (the validation pass). */
module DotArgs {
  import opened Common
  import opened Storage
  import opened CommandLineHelper

  /** The concrete subclass of an argument of the older classes. */
  datatype Kind =
    | FlagArg
    | OptionArg
    | SetArg(validOptions: seq<Option<string>>)
    | CollectionArg
    | AliasArg(reference: Argument)

  class Argument {
    const kind: Kind
    const isRequired: bool
    var defaultValue: Value
    /** The user's `Validator` delegate, `None` for `null`. */
    var validator: Option<Value -> bool>
    /** The private `Value` field of the base class. */
    var value: Value
    /** The `Values` list of a collection. */
    var values: seq<Option<string>>
    /** Length of the alias chain that starts here. */
    ghost const depth: nat

    /** `NeedsValue`: an option (a set is one) and a collection take a
        value; a flag and an alias do not. */
    predicate NeedsValue() {
      kind.OptionArg? || kind.SetArg? || kind.CollectionArg?
    }

    ghost predicate Valid()
      decreases depth
    {
      match kind
      case AliasArg(r) => r.depth < depth && r.Valid()
      case _ => true
    }

    /** The argument at the end of the alias chain: `GetValue` and `SetValue`
        forward to it. */
    function Target(): (t: Argument)
      requires Valid()
      ensures t.Valid() && !t.kind.AliasArg?
      decreases depth
    {
      if kind.AliasArg? then kind.reference.Target() else this
    }

    function Stored(): Slot
      reads this
    {
      Slot(value, values)
    }

    /** FlagArgument's constructor: a required flag has a null default. */
    constructor FlagArgument(defaultValue: bool, required: bool)
      ensures Valid() && kind == FlagArg && depth == 0
      ensures isRequired == required
      ensures this.defaultValue == if required then VNull else VBool(defaultValue)
      ensures validator == None && value == VNull && values == []
    {
      kind := FlagArg;
      isRequired := required;
      this.defaultValue := if required then VNull else VBool(defaultValue);
      validator := None;
      value := VNull;
      values := [];
      depth := 0;
    }

    /** OptionArgument's constructor: a value is needed; the default is kept
        even when the option is required. */
    constructor OptionArgument(defaultValue: Option<string>, required: bool)
      ensures Valid() && kind == OptionArg && depth == 0
      ensures isRequired == required
      ensures this.defaultValue == if defaultValue.None? then VNull else VStr(defaultValue.value)
      ensures validator == None && value == VNull && values == []
    {
      kind := OptionArg;
      isRequired := required;
      this.defaultValue := if defaultValue.None? then VNull else VStr(defaultValue.value);
      validator := None;
      value := VNull;
      values := [];
      depth := 0;
    }

    /** SetArgument's constructor: an option with a fixed list of values. */
    constructor SetArgument(validOptions: seq<Option<string>>, defaultValue: Option<string>, required: bool)
      ensures Valid() && kind == SetArg(validOptions) && depth == 0
      ensures isRequired == required
      ensures this.defaultValue == if defaultValue.None? then VNull else VStr(defaultValue.value)
      ensures validator == None && value == VNull && values == []
    {
      kind := SetArg(validOptions);
      isRequired := required;
      this.defaultValue := if defaultValue.None? then VNull else VStr(defaultValue.value);
      validator := None;
      value := VNull;
      values := [];
      depth := 0;
    }

    /** CollectionArgument's constructor: the base class's private value gets
        an empty array, which the overridden `GetValue` never reads. */
    constructor CollectionArgument(required: bool)
      ensures Valid() && kind == CollectionArg && depth == 0
      ensures isRequired == required && defaultValue == VNull
      ensures validator == None && value == VStrs([]) && values == []
    {
      kind := CollectionArg;
      isRequired := required;
      defaultValue := VNull;
      validator := None;
      value := VStrs([]);
      values := [];
      depth := 0;
    }

    /** AliasArgument's constructor: default and requiredness are copied from
        the entry; `NeedsValue` stays false. */
    constructor AliasArgument(entry: Argument)
      requires entry.Valid()
      ensures Valid() && kind == AliasArg(entry) && depth == entry.depth + 1
      ensures isRequired == entry.isRequired && defaultValue == entry.defaultValue
      ensures validator == None && value == VNull && values == []
    {
      kind := AliasArg(entry);
      isRequired := entry.isRequired;
      defaultValue := entry.defaultValue;
      validator := None;
      value := VNull;
      values := [];
      depth := entry.depth + 1;
    }

    /** `GetValue`: an alias asks its reference; a collection returns its
        list as an array; every other kind its stored value. */
    function GetValue(): (r: Value)
      requires Valid()
      reads Target()
      ensures r == Read(Target().kind.CollectionArg?, Target().Stored())
      decreases depth
    {
      if kind.AliasArg? then kind.reference.GetValue() else Read(kind.CollectionArg?, Stored())
    }

    /** `SetValue`: an alias forwards to its reference; a collection appends
        `value as string`; every other kind overwrites. */
    method SetValue(v: Value)
      requires Valid()
      modifies Target()`value, Target()`values
      ensures Target().Stored() == Write(Target().kind.CollectionArg?, old(Target().Stored()), v)
      decreases depth
    {
      if kind.AliasArg? {
        kind.reference.SetValue(v);
      } else if kind.CollectionArg? {
        values := values + [AsString(v)];
      } else {
        value := v;
      }
    }

    /** `Reset`: the base class stores the default in its own private field,
        so an alias resets only itself; a collection clears its list. */
    method Reset()
      modifies this`value, this`values
      ensures Stored() == Cleared(kind.CollectionArg?, old(Stored()), defaultValue)
    {
      if kind.CollectionArg? {
        values := [];
      } else {
        value := defaultValue;
      }
    }

    /** `Validate`. A flag accepts exactly a bool (the required case adds a
        redundant null test); an option or a collection asks its `Validator`,
        or accepts everything; a set asks whether `value as string` is listed;
        an alias keeps the base rule: when required, the value must be a
        string that is not blank. */
    predicate Validate(v: Value)
      reads this`validator
      ensures kind == FlagArg ==> (Validate(v) <==> v.VBool?)
      ensures (kind == OptionArg || kind == CollectionArg) && validator.None? ==> Validate(v)
      ensures kind.SetArg? ==> (Validate(v) ==> v.VStr? || None in kind.validOptions)
      ensures kind.AliasArg? ==> (Validate(v) <==> !isRequired || (v.VStr? && !IsBlank(v.s)))
    {
      match kind
      case FlagArg => v.VBool? && (isRequired ==> !v.VNull?)
      case OptionArg => validator.None? || validator.value(v)
      case CollectionArg => validator.None? || validator.value(v)
      case SetArg(options) => AsString(v) in options
      case AliasArg(_) => !isRequired || !IsNullOrWhiteSpace(AsString(v))
    }
  }

  // ---------------------------------------------------------------------------
  // The specification of Process
  // ---------------------------------------------------------------------------

  /** The value storage of every argument object the engine can reach. */
  type Store = map<Argument, Slot>

  /** Every registered argument is well formed. */
  ghost predicate WellFormed(reg: map<string, Argument>) {
    forall n :: n in reg ==> reg[n].Valid()
  }

  /** The store holds every registered argument and every end of a chain. */
  ghost predicate Covers(reg: map<string, Argument>, st: Store) {
    WellFormed(reg) && forall n :: n in reg ==> reg[n] in st && reg[n].Target() in st
  }

  /** The registered arguments and the ends of their chains. */
  ghost function Objects(reg: map<string, Argument>): (objs: set<Argument>)
    requires WellFormed(reg)
    ensures forall n :: n in reg ==> reg[n] in objs && reg[n].Target() in objs
  {
    (set n | n in reg :: reg[n]) + (set n | n in reg :: reg[n].Target())
  }

  ghost function StoreOf(objs: set<Argument>): (st: Store)
    reads objs
    ensures st.Keys == objs
  {
    map o | o in objs :: o.Stored()
  }

  /** The reset pass: every registered argument resets its own storage;
      the end of a chain that is no longer registered keeps its storage. */
  ghost function ResetStore(reg: map<string, Argument>, st: Store): (r: Store)
    reads reg.Values`defaultValue
    ensures r.Keys == st.Keys
    ensures forall o :: o in st && o in reg.Values ==>
              Read(o.kind.CollectionArg?, r[o]) == if o.kind.CollectionArg? then VStrs([]) else o.defaultValue
    ensures forall o :: o in st && o !in reg.Values ==> r[o] == st[o]
  {
    map o | o in st :: if o in reg.Values then Cleared(o.kind.CollectionArg?, st[o], o.defaultValue) else st[o]
  }

  /** `SetValue(v)` on argument `e`: the end of its chain takes the write. */
  ghost function Assign(st: Store, e: Argument, v: Value): (r: Store)
    requires e.Valid() && e.Target() in st
    ensures r.Keys == st.Keys
  {
    var t := e.Target();
    st[t := Write(t.kind.CollectionArg?, st[t], v)]
  }

  /** Where the token loop ends: the store, whether a token error occurred,
      and whether GetArgName threw. */
  datatype Walked = Walked(store: Store, errors: bool, threw: bool)

  /** The token loop from token `i` on. A token whose name is not registered
      is an error and consumes nothing; an argument that needs a value takes
      the inline value or else the next token, whatever it is, and is an
      error with neither; any other argument (a flag, or an alias of
      anything) is set to `true`. */
  ghost function Walk(reg: map<string, Argument>, parts: seq<string>, i: nat, st: Store, errors: bool): (r: Walked)
    requires Covers(reg, st)
    ensures r.store.Keys == st.Keys
    decreases |parts| - i
  {
    if i >= |parts| then Walked(st, errors, false)
    else
      match ArgName(parts[i])
      case None => Walked(st, errors, true)
      case Some(name) =>
        if name !in reg then Walk(reg, parts, i + 1, st, true)
        else
          var e := reg[name];
          if e.NeedsValue() then
            var inline := ExtractValueFromArg(parts[i]);
            if inline.Some? then Walk(reg, parts, i + 1, Assign(st, e, VStr(inline.value)), errors)
            else if i < |parts| - 1 then Walk(reg, parts, i + 2, Assign(st, e, VStr(parts[i + 1])), errors)
            else Walk(reg, parts, i + 1, st, true)
          else Walk(reg, parts, i + 1, Assign(st, e, VBool(true)), errors)
  }

  /** The token `parts[i]` names an argument that does not need a value: the
      walk sets it to `true`. */
  lemma WalkSetsSwitch(reg: map<string, Argument>, parts: seq<string>, i: nat, st: Store, errors: bool,
                       name: string)
    requires Covers(reg, st) && i < |parts|
    requires ArgName(parts[i]) == Some(name) && name in reg && !reg[name].NeedsValue()
    ensures Walk(reg, parts, i, st, errors) == Walk(reg, parts, i + 1, Assign(st, reg[name], VBool(true)), errors)
  {
  }

  /** The token `parts[i]` names an argument that needs a value, and the
      value is the inline one or else the next token: the walk stores it. */
  lemma WalkTakesValue(reg: map<string, Argument>, parts: seq<string>, i: nat, st: Store, errors: bool,
                       name: string, v: string, next: nat)
    requires Covers(reg, st) && i < |parts|
    requires ArgName(parts[i]) == Some(name) && name in reg && reg[name].NeedsValue()
    requires var inline := ExtractValueFromArg(parts[i]);
             (inline == Some(v) && next == i + 1)
             || (inline.None? && i < |parts| - 1 && v == parts[i + 1] && next == i + 2)
    ensures Walk(reg, parts, i, st, errors) == Walk(reg, parts, next, Assign(st, reg[name], VStr(v)), errors)
  {
  }

  /** The validation pass: every registered argument that is not an alias
      accepts its own value. */
  ghost predicate Passes(reg: map<string, Argument>, st: Store)
    requires Covers(reg, st)
    reads reg.Values`validator
  {
    forall n :: n in reg && !reg[n].kind.AliasArg? ==>
      reg[n].Validate(Read(reg[n].kind.CollectionArg?, st[reg[n]]))
  }

  /** What `Process(string)` does to a store: `Threw` when GetArgName throws,
      otherwise true exactly when no token error occurred and validation
      passed. */
  datatype Outcome = Threw | Returned(ok: bool)

  ghost function ProcessSpec(reg: map<string, Argument>, st: Store, args: string): (Outcome, Store)
    requires Covers(reg, st)
    reads reg.Values`defaultValue, reg.Values`validator
  {
    Finish(reg, Walk(reg, Split(args), 0, ResetStore(reg, st), false))
  }

  /** The validation pass runs only when the token loop returned. */
  ghost function Finish(reg: map<string, Argument>, w: Walked): (Outcome, Store)
    requires Covers(reg, w.store)
    reads reg.Values`validator
  {
    if w.threw then (Threw, w.store)
    else (Returned(!w.errors && Passes(reg, w.store)), w.store)
  }

  /** Storage of `objs` once the registered arguments in `done` have reset
      themselves: those hold their entry of `target`, the others their entry
      of `st0`; `target` holds the reset storage of every registered argument. */
  ghost predicate ResetSoFar(objs: set<Argument>, reg: map<string, Argument>, st0: Store, target: Store,
                             done: set<Argument>)
    reads objs, reg.Values`defaultValue
  {
    (forall o :: o in objs ==>
       o in st0 && o in target && o.Stored() == if o in done then target[o] else st0[o])
    && (forall o :: o in reg.Values && o in st0 && o in target ==>
          target[o] == Cleared(o.kind.CollectionArg?, st0[o], o.defaultValue))
  }

  lemma ResetSoFarIsReset(objs: set<Argument>, reg: map<string, Argument>, st0: Store, target: Store,
                          done: set<Argument>)
    requires st0.Keys == objs && target.Keys == objs && ResetSoFar(objs, reg, st0, target, done)
    requires forall o :: o in objs && o !in done ==> target[o] == st0[o]
    ensures StoreOf(objs) == target
  {
  }

  lemma StoreOfUpdate(objs: set<Argument>, st: Store, t: Argument, slot: Slot)
    requires st.Keys == objs && t in objs
    requires forall o :: o in objs ==> o.Stored() == if o == t then slot else st[o]
    ensures StoreOf(objs) == st[t := slot]
  {
  }

  // ---------------------------------------------------------------------------
  // The engine
  // ---------------------------------------------------------------------------


  class CommandLineArgs {
    var arguments: map<string, Argument>

    ghost predicate Valid()
      reads this
    {
      WellFormed(arguments)
    }

    constructor ()
      ensures Valid() && arguments == map[]
    {
      arguments := map[];
    }

    /** `RegisterArgument`: a name registered before is silently taken over. */
    method RegisterArgument(name: string, arg: Argument)
      requires Valid() && arg.Valid()
      modifies this`arguments
      ensures Valid() && arguments == old(arguments)[name := arg]
    {
      arguments := arguments[name := arg];
    }

    /** `RegisterAlias`: `false` stands for the KeyNotFoundException thrown
        when the original is not registered; otherwise the alias is a new
        object that refers to the object registered now, not to the name. */
    method RegisterAlias(originalName: string, alias: string) returns (ok: bool)
      requires Valid()
      modifies this`arguments
      ensures Valid()
      ensures ok <==> originalName in old(arguments)
      ensures !ok ==> arguments == old(arguments)
      ensures ok ==> alias in arguments && fresh(arguments[alias])
                     && arguments == old(arguments)[alias := arguments[alias]]
                     && arguments[alias].kind == AliasArg(old(arguments)[originalName])
    {
      if originalName !in arguments {
        return false;
      }
      var entry := new Argument.AliasArgument(arguments[originalName]);
      arguments := arguments[alias := entry];
      ok := true;
    }

    /** `GetValue<T>`: `None` stands for the KeyNotFoundException thrown for
        an unregistered name; the cast to `T` is not modelled. */
    function GetValue(name: string): (r: Option<Value>)
      requires Valid()
      reads this, set n | n in arguments :: arguments[n].Target()
      ensures r.None? <==> name !in arguments
      ensures r.Some? ==> r.value == Read(arguments[name].Target().kind.CollectionArg?,
                                          arguments[name].Target().Stored())
    {
      if name !in arguments then None else Some(arguments[name].GetValue())
    }

    /** The private `Reset`: every registered argument resets itself. An
        object registered under several names is reset once, which leaves
        the same storage as resetting it again (Storage.ResetIdempotent). */
    method Reset()
      requires Valid()
      modifies Objects(arguments)`value, Objects(arguments)`values
      ensures StoreOf(Objects(arguments)) == old(ResetStore(arguments, StoreOf(Objects(arguments))))
    {
      ghost var objs := Objects(arguments);
      ghost var st0 := StoreOf(objs);
      ghost var target := ResetStore(arguments, st0);
      var todo := arguments.Values;
      while todo != {}
        invariant todo <= arguments.Values
        invariant ResetSoFar(objs, arguments, st0, target, arguments.Values - todo)
        decreases todo
      {
        var e :| e in todo;
        ResetOne(e, objs, arguments, st0, target, arguments.Values - todo);
        todo := todo - {e};
      }
      ResetSoFarIsReset(objs, arguments, st0, target, arguments.Values);
    }

    /** One step of the reset loop. */
    method ResetOne(e: Argument, ghost objs: set<Argument>, ghost reg: map<string, Argument>, ghost st0: Store,
                    ghost target: Store, ghost done: set<Argument>)
      requires e in objs && e in reg.Values && e !in done && ResetSoFar(objs, reg, st0, target, done)
      modifies e`value, e`values
      ensures ResetSoFar(objs, reg, st0, target, done + {e})
    {
      e.Reset();
    }

    /** The private `Validate`: every registered argument that is not an
        alias must accept its own value. */
    method Validate() returns (ok: bool)
      requires Valid()
      ensures ok == Passes(arguments, StoreOf(Objects(arguments)))
    {
      ghost var st := StoreOf(Objects(arguments));
      var errors := false;
      var names := arguments.Keys;
      while names != {}
        invariant names <= arguments.Keys
        invariant errors <==> exists n :: n in arguments.Keys - names && !arguments[n].kind.AliasArg?
                                && !arguments[n].Validate(Read(arguments[n].kind.CollectionArg?, st[arguments[n]]))
        decreases names
      {
        var n :| n in names;
        var entry := arguments[n];
        if !entry.kind.AliasArg? {
          if !entry.Validate(entry.GetValue()) {
            errors := true;
          }
        }
        names := names - {n};
      }
      ok := !errors;
    }

    /** The store update of one `SetValue` call. */
    method Put(entry: Argument, v: Value)
      requires Valid() && entry in arguments.Values
      modifies Objects(arguments)`value, Objects(arguments)`values
      ensures StoreOf(Objects(arguments)) == Assign(old(StoreOf(Objects(arguments))), entry, v)
    {
      ghost var objs := Objects(arguments);
      ghost var st := StoreOf(objs);
      ghost var t := entry.Target();
      ghost var slot := Write(t.kind.CollectionArg?, st[t], v);
      entry.SetValue(v);
      assert forall o :: o in objs ==> o.Stored() == if o == t then slot else st[o];
      StoreOfUpdate(objs, st, t, slot);
    }

    /** One pass of the token loop of `Process` from token `i`: it either
        throws or reaches the token `next` with the error flag `errorsAfter`,
        and the rest of the walk is unchanged. */
    method Step(parts: seq<string>, i: nat, errors: bool) returns (next: nat, errorsAfter: bool, threw: bool)
      requires Valid() && i < |parts|
      modifies Objects(arguments)`value, Objects(arguments)`values
      ensures i < next <= |parts|
      ensures var w := Walk(arguments, parts, i, old(StoreOf(Objects(arguments))), errors);
              if threw then w == Walked(StoreOf(Objects(arguments)), errorsAfter, true)
              else w == Walk(arguments, parts, next, StoreOf(Objects(arguments)), errorsAfter)
    {
      ghost var objs := Objects(arguments);
      ghost var st := StoreOf(objs);
      errorsAfter, threw := errors, false;
      next := i + 1;
      var name := GetArgName(parts[i]);
      assert StoreOf(objs) == st;
      if name.None? {
        threw := true;
        return;
      }
      if name.value !in arguments {
        errorsAfter := true;
        return;
      }
      next, errorsAfter := Apply(parts, i, errors, name.value);
    }

    /** The token `parts[i]` names the registered argument `name`: an
        argument that needs a value takes the inline value or else the next
        token, and with neither the token is an error; any other argument is
        set to `true`. */
    method Apply(parts: seq<string>, i: nat, errors: bool, name: string) returns (next: nat, errorsAfter: bool)
      requires Valid() && i < |parts| && ArgName(parts[i]) == Some(name) && name in arguments
      modifies Objects(arguments)`value, Objects(arguments)`values
      ensures i < next <= |parts|
      ensures Walk(arguments, parts, i, old(StoreOf(Objects(arguments))), errors)
              == Walk(arguments, parts, next, StoreOf(Objects(arguments)), errorsAfter)
    {
      ghost var st := StoreOf(Objects(arguments));
      errorsAfter := errors;
      next := i + 1;
      var entry := arguments[name];
      if entry.NeedsValue() {
        var value := ExtractValueFromArg(parts[i]);
        if value.None? && i < |parts| - 1 {
          value := Some(parts[i + 1]);
          next := i + 2;
        }
        if value.Some? {
          WalkTakesValue(arguments, parts, i, st, errors, name, value.value, next);
          Put(entry, VStr(value.value));
        } else {
          errorsAfter := true;
        }
      } else {
        WalkSetsSwitch(arguments, parts, i, st, errors, name);
        Put(entry, VBool(true));
      }
    }

    /** The token loop of `Process`. */
    method WalkTokens(parts: seq<string>) returns (errors: bool, threw: bool)
      requires Valid()
      modifies Objects(arguments)`value, Objects(arguments)`values
      ensures Walked(StoreOf(Objects(arguments)), errors, threw)
              == Walk(arguments, parts, 0, old(StoreOf(Objects(arguments))), false)
    {
      ghost var objs := Objects(arguments);
      ghost var goal := Walk(arguments, parts, 0, StoreOf(objs), false);
      errors, threw := false, false;
      var i := 0;
      while i < |parts|
        invariant 0 <= i <= |parts|
        invariant Walk(arguments, parts, i, StoreOf(objs), errors) == goal
        decreases |parts| - i
      {
        i, errors, threw := Step(parts, i, errors);
        if threw {
          return;
        }
      }
    }

    /** `Process(string)`: reset, walk the tokens, then validate when no
        token error occurred. */
    method Process(args: string) returns (outcome: Outcome)
      requires Valid()
      modifies Objects(arguments)`value, Objects(arguments)`values
      ensures (outcome, StoreOf(Objects(arguments)))
              == Finish(arguments, Walk(arguments, Split(args), 0,
                                        old(ResetStore(arguments, StoreOf(Objects(arguments)))), false))
    {
      ghost var objs := Objects(arguments);
      ghost var reset := ResetStore(arguments, StoreOf(objs));
      Reset();
      var parts := SplitCommandLine(args);
      assert StoreOf(objs) == reset;
      var errors, threw := WalkTokens(parts);
      if threw {
        return Threw;
      }
      if !errors {
        var valid := Validate();
        errors := !valid;
      }
      outcome := Returned(!errors);
    }

    /** `Process(string[])`: the arguments joined by single spaces. */
    method ProcessArgs(args: seq<string>) returns (outcome: Outcome)
      requires Valid()
      modifies Objects(arguments)`value, Objects(arguments)`values
      ensures (outcome, StoreOf(Objects(arguments)))
              == Finish(arguments, Walk(arguments, Split(JoinWords(args)), 0,
                                        old(ResetStore(arguments, StoreOf(Objects(arguments)))), false))
    {
      outcome := Process(JoinWords(args));
    }
  }
}

/** Properties of the DotArgs engine, stated on the specification of
    `Process`. */
module DotArgsProperties {
  import opened Common
  import opened Storage
  import opened CommandLineHelper
  import opened DotArgs

  // ---------------------------------------------------------------------------
  // Process again: idempotence
  // ---------------------------------------------------------------------------

  /** Every alias chain ends at a registered argument: no alias refers to an
      argument that was replaced by a later registration under its name. */
  ghost predicate TargetsRegistered(reg: map<string, Argument>)
    requires WellFormed(reg)
  {
    forall n :: n in reg ==> reg[n].Target() in reg.Values
  }

  lemma ResetAfterAssign(reg: map<string, Argument>, st: Store, e: Argument, v: Value)
    requires e.Valid() && e.Target() in st && e.Target() in reg.Values
    ensures ResetStore(reg, Assign(st, e, v)) == ResetStore(reg, st)
  {
    var t := e.Target();
    ResetForgetsWrite(t.kind.CollectionArg?, st[t], v, t.defaultValue);
    assert forall o :: o in st ==> ResetStore(reg, Assign(st, e, v))[o] == ResetStore(reg, st)[o];
  }

  /** The token loop writes only to storage that the reset pass overwrites. */
  lemma {:induction false} ResetAfterWalk(reg: map<string, Argument>, parts: seq<string>, i: nat, st: Store,
                                          errors: bool)
    requires Covers(reg, st) && TargetsRegistered(reg)
    ensures ResetStore(reg, Walk(reg, parts, i, st, errors).store) == ResetStore(reg, st)
    decreases |parts| - i
  {
    if i < |parts| && ArgName(parts[i]).Some? {
      var name := ArgName(parts[i]).value;
      if name !in reg {
        ResetAfterWalk(reg, parts, i + 1, st, true);
      } else {
        var e := reg[name];
        if e.NeedsValue() {
          var inline := ExtractValueFromArg(parts[i]);
          if inline.Some? {
            ResetAfterWalk(reg, parts, i + 1, Assign(st, e, VStr(inline.value)), errors);
            ResetAfterAssign(reg, st, e, VStr(inline.value));
          } else if i < |parts| - 1 {
            ResetAfterWalk(reg, parts, i + 2, Assign(st, e, VStr(parts[i + 1])), errors);
            ResetAfterAssign(reg, st, e, VStr(parts[i + 1]));
          } else {
            ResetAfterWalk(reg, parts, i + 1, st, true);
          }
        } else {
          ResetAfterWalk(reg, parts, i + 1, Assign(st, e, VBool(true)), errors);
          ResetAfterAssign(reg, st, e, VBool(true));
        }
      }
    }
  }

  lemma ResetStoreIdempotent(reg: map<string, Argument>, st: Store)
    ensures ResetStore(reg, ResetStore(reg, st)) == ResetStore(reg, st)
  {
    forall o | o in st && o in reg.Values {
      ResetIdempotent(o.kind.CollectionArg?, st[o], o.defaultValue);
    }
  }

  /** Processing the same command line twice gives the outcome and the
      values of processing it once, as long as every alias refers to a
      registered argument: each run starts from the reset values. */
  lemma ProcessIsIdempotent(reg: map<string, Argument>, st: Store, args: string)
    requires Covers(reg, st) && TargetsRegistered(reg)
    ensures Covers(reg, ProcessSpec(reg, st, args).1)
    ensures ProcessSpec(reg, ProcessSpec(reg, st, args).1, args) == ProcessSpec(reg, st, args)
  {
    var r := ResetStore(reg, st);
    ResetAfterWalk(reg, Split(args), 0, r, false);
    ResetStoreIdempotent(reg, st);
  }

  /** Without `TargetsRegistered` the program is not idempotent. Register a
      collection under `c`, an alias `a` of it, and then another argument
      under `c`: the collection is no longer reset, and each `Process("a")`
      appends one more null to it. */
  lemma StaleAliasBreaksIdempotence(reg: map<string, Argument>, st: Store, c: string, a: string, coll: Argument)
    requires Covers(reg, st) && reg.Keys == {c, a} && c != a && reg[c] != coll
    requires reg[a].kind == AliasArg(coll) && coll.kind == CollectionArg
    requires GoodName(a) && PlainWord(a)
    ensures var s1 := ProcessSpec(reg, st, a).1;
            reg[a].Target() == coll && Covers(reg, s1) && ProcessSpec(reg, s1, a).1[coll].values == s1[coll].values + [None]
    ensures ProcessSpec(reg, ProcessSpec(reg, st, a).1, a) != ProcessSpec(reg, st, a)
  {
    assert reg[a].Target() == coll;
    assert coll !in reg.Values;
    var s1 := ProcessSpec(reg, st, a).1;
    assert JoinWords([a]) == a;
    assert "" + a == a;
    ProcessOfPlainWords(reg, st, [a]);
    WalkSwitch(reg, [a], 0, ResetStore(reg, st), false, "", a);
    assert s1 == Assign(ResetStore(reg, st), reg[a], VBool(true));
    assert s1.Keys == st.Keys;
    ProcessOfPlainWords(reg, s1, [a]);
    WalkSwitch(reg, [a], 0, ResetStore(reg, s1), false, "", a);
    var s2 := ProcessSpec(reg, s1, a).1;
    assert s2 == Assign(ResetStore(reg, s1), reg[a], VBool(true));
    assert s2[coll].values == s1[coll].values + [None];
  }

  // ---------------------------------------------------------------------------
  // One token at a time
  // ---------------------------------------------------------------------------

  /** An argument that needs a value takes the value written after `=` or
      `:` in its own token, whatever prefix run spells the token. */
  lemma WalkInlineValue(reg: map<string, Argument>, parts: seq<string>, i: nat, st: Store, errors: bool,
                        p: string, n: string, sep: char, v: string)
    requires Covers(reg, st) && i < |parts|
    requires AllPrefixes(p) && GoodName(n) && IsSeparator(sep) && NoSeparators(v)
    requires parts[i] == p + n + [sep] + v
    requires n in reg && reg[n].NeedsValue()
    ensures Walk(reg, parts, i, st, errors) == Walk(reg, parts, i + 1, Assign(st, reg[n], VStr(v)), errors)
  {
    var tok := parts[i];
    assert ArgName(tok) == Some(n) by {
      ArgNameOfSpelledToken(p, n, [sep] + v);
      assert p + n + ([sep] + v) == tok;
    }
    assert ExtractValueFromArg(tok) == Some(v) by {
      ExtractValueOfSpelledToken(p, n, [sep] + v);
      assert p + n + ([sep] + v) == tok;
      assert ([sep] + v)[1..] == v;
    }
  }

  /** Without an inline value, an argument that needs one takes the next
      token, whatever it is: even a token that names another argument. */
  lemma WalkNextTokenValue(reg: map<string, Argument>, parts: seq<string>, i: nat, st: Store, errors: bool,
                           p: string, n: string)
    requires Covers(reg, st) && i + 1 < |parts|
    requires AllPrefixes(p) && GoodName(n) && parts[i] == p + n
    requires n in reg && reg[n].NeedsValue()
    ensures Walk(reg, parts, i, st, errors) == Walk(reg, parts, i + 2, Assign(st, reg[n], VStr(parts[i + 1])), errors)
  {
    ArgNameOfSpelledToken(p, n, []);
    ExtractValueOfSpelledToken(p, n, []);
    assert p + n + [] == parts[i];
  }

  /** An argument that needs a value, named by the last token without an
      inline value, is an error and changes nothing. */
  lemma WalkMissingValue(reg: map<string, Argument>, parts: seq<string>, st: Store, errors: bool,
                         p: string, n: string)
    requires Covers(reg, st) && parts != []
    requires AllPrefixes(p) && GoodName(n) && parts[|parts| - 1] == p + n
    requires n in reg && reg[n].NeedsValue()
    ensures Walk(reg, parts, |parts| - 1, st, errors) == Walked(st, true, false)
  {
    ArgNameOfSpelledToken(p, n, []);
    ExtractValueOfSpelledToken(p, n, []);
    assert p + n + [] == parts[|parts| - 1];
  }

  /** A flag, and an alias of any kind of argument, is set to `true` by its
      token; the write lands at the end of the alias chain. */
  lemma WalkSwitch(reg: map<string, Argument>, parts: seq<string>, i: nat, st: Store, errors: bool,
                   p: string, n: string)
    requires Covers(reg, st) && i < |parts|
    requires AllPrefixes(p) && GoodName(n) && parts[i] == p + n
    requires n in reg && !reg[n].NeedsValue()
    ensures Walk(reg, parts, i, st, errors) == Walk(reg, parts, i + 1, Assign(st, reg[n], VBool(true)), errors)
  {
    ArgNameOfSpelledToken(p, n, []);
    assert p + n + [] == parts[i];
  }

  /** An error is never cleared by later tokens. */
  lemma {:induction false} WalkErrorsStay(reg: map<string, Argument>, parts: seq<string>, i: nat, st: Store)
    requires Covers(reg, st)
    ensures Walk(reg, parts, i, st, true).errors
    decreases |parts| - i
  {
    if i < |parts| && ArgName(parts[i]).Some? {
      var name := ArgName(parts[i]).value;
      if name !in reg {
        WalkErrorsStay(reg, parts, i + 1, st);
      } else {
        var e := reg[name];
        if e.NeedsValue() {
          var inline := ExtractValueFromArg(parts[i]);
          if inline.Some? {
            WalkErrorsStay(reg, parts, i + 1, Assign(st, e, VStr(inline.value)));
          } else if i < |parts| - 1 {
            WalkErrorsStay(reg, parts, i + 2, Assign(st, e, VStr(parts[i + 1])));
          } else {
            WalkErrorsStay(reg, parts, i + 1, st);
          }
        } else {
          WalkErrorsStay(reg, parts, i + 1, Assign(st, e, VBool(true)));
        }
      }
    }
  }

  /** A token whose name is not registered consumes only itself, and the
      command line can then no longer succeed. */
  lemma WalkUnknownName(reg: map<string, Argument>, parts: seq<string>, i: nat, st: Store, errors: bool)
    requires Covers(reg, st) && i < |parts|
    requires ArgName(parts[i]).Some? && ArgName(parts[i]).value !in reg
    ensures Walk(reg, parts, i, st, errors) == Walk(reg, parts, i + 1, st, true)
    ensures Walk(reg, parts, i, st, errors).errors
  {
    WalkErrorsStay(reg, parts, i + 1, st);
  }

  // ---------------------------------------------------------------------------
  // Whole command lines
  // ---------------------------------------------------------------------------

  /** A command line of plain words walks those words. */
  lemma ProcessOfPlainWords(reg: map<string, Argument>, st: Store, ws: seq<string>)
    requires Covers(reg, st)
    requires forall k :: 0 <= k < |ws| ==> PlainWord(ws[k])
    ensures ProcessSpec(reg, st, JoinWords(ws)) == Finish(reg, Walk(reg, ws, 0, ResetStore(reg, st), false))
  {
    SplitJoinWords(ws);
  }

  /** The empty command line resets every argument and validates. */
  lemma ProcessEmpty(reg: map<string, Argument>, st: Store)
    requires Covers(reg, st)
    ensures ProcessSpec(reg, st, "") == (Returned(Passes(reg, ResetStore(reg, st))), ResetStore(reg, st))
  {
    ProcessOfPlainWords(reg, st, []);
  }

  // ---------------------------------------------------------------------------
  // Arguments the command line does not name
  // ---------------------------------------------------------------------------

  /** No token from `i` on names an argument whose chain ends at `o`. */
  ghost predicate NotNamed(reg: map<string, Argument>, parts: seq<string>, i: nat, o: Argument)
    requires WellFormed(reg)
  {
    forall k :: i <= k < |parts| && ArgName(parts[k]).Some? && ArgName(parts[k]).value in reg ==>
      reg[ArgName(parts[k]).value].Target() != o
  }

  /** The token loop leaves alone the storage of an object that no token
      names. */
  lemma {:induction false} WalkLeavesUnnamed(reg: map<string, Argument>, parts: seq<string>, i: nat, st: Store,
                                             errors: bool, o: Argument)
    requires Covers(reg, st) && o in st && NotNamed(reg, parts, i, o)
    ensures Walk(reg, parts, i, st, errors).store[o] == st[o]
    decreases |parts| - i
  {
    if i < |parts| && ArgName(parts[i]).Some? {
      var name := ArgName(parts[i]).value;
      assert NotNamed(reg, parts, i + 1, o);
      if name !in reg {
        WalkLeavesUnnamed(reg, parts, i + 1, st, true, o);
      } else {
        var e := reg[name];
        if e.NeedsValue() {
          var inline := ExtractValueFromArg(parts[i]);
          if inline.Some? {
            WalkLeavesUnnamed(reg, parts, i + 1, Assign(st, e, VStr(inline.value)), errors, o);
          } else if i < |parts| - 1 {
            assert NotNamed(reg, parts, i + 2, o);
            WalkLeavesUnnamed(reg, parts, i + 2, Assign(st, e, VStr(parts[i + 1])), errors, o);
          } else {
            WalkLeavesUnnamed(reg, parts, i + 1, st, true, o);
          }
        } else {
          WalkLeavesUnnamed(reg, parts, i + 1, Assign(st, e, VBool(true)), errors, o);
        }
      }
    }
  }

  /** An argument that the command line does not name reads, after
      `Process`, the default of the end of its chain, and a collection reads
      an empty array, provided that end is registered and so reset. */
  lemma OmittedReadsDefault(reg: map<string, Argument>, st: Store, args: string, n: string)
    requires Covers(reg, st) && n in reg && reg[n].Target() in reg.Values
    requires NotNamed(reg, Split(args), 0, reg[n].Target())
    ensures var t := reg[n].Target();
            Read(t.kind.CollectionArg?, ProcessSpec(reg, st, args).1[t])
            == if t.kind.CollectionArg? then VStrs([]) else t.defaultValue
  {
    var t := reg[n].Target();
    WalkLeavesUnnamed(reg, Split(args), 0, ResetStore(reg, st), false, t);
    ReadAfterReset(t.kind.CollectionArg?, st[t], t.defaultValue);
  }

  /** `GetValue` after `Process` of a command line that does not name the
      argument returns the default. */
  method OmittedGetValue(c: CommandLineArgs, args: string, n: string) returns (r: Option<Value>)
    requires c.Valid() && n in c.arguments && c.arguments[n].Target() in c.arguments.Values
    requires NotNamed(c.arguments, Split(args), 0, c.arguments[n].Target())
    modifies Objects(c.arguments)`value, Objects(c.arguments)`values
    ensures var t := c.arguments[n].Target();
            r == Some(if t.kind.CollectionArg? then VStrs([]) else t.defaultValue)
  {
    ghost var st := StoreOf(Objects(c.arguments));
    var _ := c.Process(args);
    OmittedReadsDefault(c.arguments, st, args, n);
    r := c.GetValue(n);
  }

  /** A required flag has no default, so a command line that does not name
      it cannot succeed: validation fails, unless GetArgName throws first. */
  lemma RequiredFlagAbsentFails(reg: map<string, Argument>, st: Store, args: string, n: string)
    requires Covers(reg, st) && n in reg && reg[n].kind == FlagArg && reg[n].defaultValue == VNull
    requires NotNamed(reg, Split(args), 0, reg[n])
    ensures ProcessSpec(reg, st, args).0 != Returned(true)
  {
    OmittedReadsDefault(reg, st, args, n);
  }

  /** The token of an alias sets its reference to `true`, and a required
      flag given through its alias passes validation. */
  lemma RequiredFlagThroughAlias(reg: map<string, Argument>, st: Store, flag: string, alias: string, p: string)
    requires Covers(reg, st) && flag != alias && reg.Keys == {flag, alias}
    requires reg[flag].kind == FlagArg && reg[alias].kind == AliasArg(reg[flag])
    requires AllPrefixes(p) && GoodName(alias) && PlainWord(p + alias)
    ensures ProcessSpec(reg, st, p + alias).0 == Returned(true)
    ensures ProcessSpec(reg, st, p + alias).1[reg[flag]].value == VBool(true)
  {
    var f, a := reg[flag], reg[alias];
    var r := ResetStore(reg, st);
    ProcessOfPlainWords(reg, st, [p + alias]);
    WalkSwitch(reg, [p + alias], 0, r, false, p, alias);
    assert a.Target() == f;
    var w := Walk(reg, [p + alias], 0, r, false);
    assert w == Walked(Assign(r, a, VBool(true)), false, false);
    assert w.store[f].value == VBool(true);
    assert Passes(reg, w.store) by {
      forall n | n in reg && !reg[n].kind.AliasArg?
        ensures reg[n].Validate(Read(reg[n].kind.CollectionArg?, w.store[reg[n]]))
      {
        assert n == flag;
      }
    }
  }

  /** Of two values given to one scalar argument, the later wins. */
  lemma LastValueWins(reg: map<string, Argument>, st: Store, n: string,
                      p1: string, s1: char, v1: string, p2: string, s2: char, v2: string)
    requires Covers(reg, st) && n in reg && reg[n].NeedsValue() && !reg[n].kind.CollectionArg?
    requires AllPrefixes(p1) && AllPrefixes(p2) && GoodName(n)
    requires IsSeparator(s1) && IsSeparator(s2) && NoSeparators(v1) && NoSeparators(v2)
    ensures var parts := [p1 + n + [s1] + v1, p2 + n + [s2] + v2];
            Walk(reg, parts, 0, st, false).store[reg[n]].value == VStr(v2)
  {
    var parts := [p1 + n + [s1] + v1, p2 + n + [s2] + v2];
    var e := reg[n];
    WalkInlineValue(reg, parts, 0, st, false, p1, n, s1, v1);
    var st1 := Assign(st, e, VStr(v1));
    WalkInlineValue(reg, parts, 1, st1, false, p2, n, s2, v2);
  }

  /** A collection gathers the values of its tokens in command-line order,
      after the values it held when the walk started. */
  lemma CollectionGathersInOrder(reg: map<string, Argument>, st: Store, n: string,
                                 p1: string, s1: char, v1: string, p2: string, s2: char, v2: string)
    requires Covers(reg, st) && n in reg && reg[n].kind == CollectionArg && reg[n].NeedsValue()
    requires AllPrefixes(p1) && AllPrefixes(p2) && GoodName(n)
    requires IsSeparator(s1) && IsSeparator(s2) && NoSeparators(v1) && NoSeparators(v2)
    ensures var parts := [p1 + n + [s1] + v1, p2 + n + [s2] + v2];
            Walk(reg, parts, 0, st, false).store[reg[n]].values == st[reg[n]].values + [Some(v1), Some(v2)]
  {
    var parts := [p1 + n + [s1] + v1, p2 + n + [s2] + v2];
    var e := reg[n];
    WalkInlineValue(reg, parts, 0, st, false, p1, n, s1, v1);
    var st1 := Assign(st, e, VStr(v1));
    WalkInlineValue(reg, parts, 1, st1, false, p2, n, s2, v2);
  }

  /** An argument that needs a value swallows the next token even when that
      token names a flag: the flag stays unset and no error occurs. */
  lemma ValueSwallowsFlag(reg: map<string, Argument>, st: Store, n: string, f: string, p: string, q: string)
    requires Covers(reg, st) && n in reg && reg[n].NeedsValue() && f in reg && !reg[f].NeedsValue()
    requires AllPrefixes(p) && GoodName(n)
    ensures Walk(reg, [p + n, q + f], 0, st, false) == Walked(Assign(st, reg[n], VStr(q + f)), false, false)
  {
    WalkNextTokenValue(reg, [p + n, q + f], 0, st, false, p, n);
  }
}
