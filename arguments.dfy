/** The argument family of DotArgs (Argument.cs, FlagArgument.cs,
    OptionArgument.cs, SetArgument.cs, CollectionArgument.cs, AliasArgument.cs).

    The C# hierarchy becomes one class whose `kind` says which subclass an
    object is; the virtual members dispatch on it. An alias holds the object it
    was built from, so the chain of aliases is fixed when they are built. */
module Arguments {
  import opened Common
  import opened Storage

  /** The concrete subclass of an argument. A set keeps its `ValidOptions`
      (read-only after construction), an alias its `Reference`. */
  datatype Kind =
    | FlagArg
    | OptionArg
    | SetArg(validOptions: seq<Option<string>>)
    | CollectionArg
    | AliasArg(reference: Argument)

  class Argument {
    const kind: Kind
    const isRequired: bool
    const needsValue: bool
    const supportsMultipleValues: bool
    var defaultValue: Value
    var position: Option<int>
    var helpPlaceholder: Option<string>
    /** The user's `Validator` delegate, `None` for `null`. */
    var validator: Option<Value -> bool>
    var value: Value
    var values: seq<Option<string>>
    /** Length of the alias chain that starts here. */
    ghost const depth: nat

    /** Every alias chain ends, and each link is shorter than the one before. */
    ghost predicate Valid()
      decreases depth
    {
      match kind
      case AliasArg(r) => r.depth < depth && r.Valid()
      case _ => true
    }

    /** The argument at the end of the alias chain, the one that holds the
        value. */
    function Target(): (t: Argument)
      requires Valid()
      ensures t.Valid() && !t.kind.AliasArg?
      decreases depth
    {
      if kind.AliasArg? then kind.reference.Target() else this
    }

    function Stored(): Slot
      reads this
    {
      Slot(value, values)
    }

    /** Where `DefaultValue` writes go: an alias writes the default of its
        reference, every other kind its own. */
    function DefaultOwner(): Argument {
      if kind.AliasArg? then kind.reference else this
    }

    /** The `Argument` base constructor followed by FlagArgument's: a required
        flag has a null default, whatever default was passed. */
    constructor FlagArgument(defaultValue: bool, required: bool, position: Option<int>)
      ensures Valid() && kind == FlagArg && depth == 0
      ensures isRequired == required && !needsValue && !supportsMultipleValues
      ensures this.defaultValue == if required then VNull else VBool(defaultValue)
      ensures this.position == position && helpPlaceholder == None && validator == None
      ensures value == VNull && values == []
    {
      kind := FlagArg;
      isRequired := required;
      needsValue := false;
      supportsMultipleValues := false;
      this.defaultValue := if required then VNull else VBool(defaultValue);
      this.position := position;
      helpPlaceholder := None;
      validator := None;
      value := VNull;
      values := [];
      depth := 0;
    }

    /** OptionArgument's constructor: a value is needed and the placeholder is
        "OPTION"; a required option has a null default. */
    constructor OptionArgument(defaultValue: Option<string>, required: bool, position: Option<int>)
      ensures Valid() && kind == OptionArg && depth == 0
      ensures isRequired == required && needsValue && !supportsMultipleValues
      ensures this.defaultValue == if required || defaultValue.None? then VNull else VStr(defaultValue.value)
      ensures this.position == position && helpPlaceholder == Some("OPTION") && validator == None
      ensures value == VNull && values == []
    {
      kind := OptionArg;
      isRequired := required;
      needsValue := true;
      supportsMultipleValues := false;
      this.defaultValue := if required || defaultValue.None? then VNull else VStr(defaultValue.value);
      this.position := position;
      helpPlaceholder := Some("OPTION");
      validator := None;
      value := VNull;
      values := [];
      depth := 0;
    }

    /** SetArgument's constructor: an option whose valid values are fixed
        here. */
    constructor SetArgument(validOptions: seq<Option<string>>, defaultValue: Option<string>, required: bool,
                    position: Option<int>)
      ensures Valid() && kind == SetArg(validOptions) && depth == 0
      ensures isRequired == required && needsValue && !supportsMultipleValues
      ensures this.defaultValue == if required || defaultValue.None? then VNull else VStr(defaultValue.value)
      ensures this.position == position && helpPlaceholder == Some("OPTION") && validator == None
      ensures value == VNull && values == []
    {
      kind := SetArg(validOptions);
      isRequired := required;
      needsValue := true;
      supportsMultipleValues := false;
      this.defaultValue := if required || defaultValue.None? then VNull else VStr(defaultValue.value);
      this.position := position;
      helpPlaceholder := Some("OPTION");
      validator := None;
      value := VNull;
      values := [];
      depth := 0;
    }

    /** CollectionArgument's constructor: an option with a null default that
        takes several values and starts with an empty list. */
    constructor CollectionArgument(required: bool, position: Option<int>)
      ensures Valid() && kind == CollectionArg && depth == 0
      ensures isRequired == required && needsValue && supportsMultipleValues
      ensures defaultValue == VNull
      ensures this.position == position && helpPlaceholder == Some("COLLECTION") && validator == None
      ensures value == VStrs([]) && values == []
    {
      kind := CollectionArg;
      isRequired := required;
      needsValue := true;
      supportsMultipleValues := true;
      defaultValue := VNull;
      this.position := position;
      helpPlaceholder := Some("COLLECTION");
      validator := None;
      value := VStrs([]);
      values := [];
      depth := 0;
    }

    /** AliasArgument's constructor: the base fields are copied from the entry
        once, without its position, and `NeedsValue` stays false. */
    constructor AliasArgument(entry: Argument)
      requires entry.Valid()
      ensures Valid() && kind == AliasArg(entry) && depth == entry.depth + 1
      ensures isRequired == entry.isRequired && !needsValue && !supportsMultipleValues
      ensures defaultValue == if entry.isRequired then VNull else entry.defaultValue
      ensures position == None && helpPlaceholder == None && validator == None
      ensures value == VNull && values == []
    {
      kind := AliasArg(entry);
      isRequired := entry.isRequired;
      needsValue := false;
      supportsMultipleValues := false;
      defaultValue := if entry.isRequired then VNull else entry.defaultValue;
      position := None;
      helpPlaceholder := None;
      validator := None;
      value := VNull;
      values := [];
      depth := entry.depth + 1;
    }

    /** The `Value` getter: an alias reads its reference, so every alias of a
        chain reads the value held at the chain's end. */
    function GetValue(): (r: Value)
      requires Valid()
      reads Target()
      ensures r == Read(Target().kind.CollectionArg?, Target().Stored())
      decreases depth
    {
      if kind.AliasArg? then kind.reference.GetValue() else Read(kind.CollectionArg?, Stored())
    }

    /** The `Value` setter: an alias writes through to its reference; the
        argument at the end of the chain overwrites or, if it is a collection,
        appends. */
    method SetValue(v: Value)
      requires Valid()
      modifies Target()`value, Target()`values
      ensures Target().Stored() == Write(Target().kind.CollectionArg?, old(Target().Stored()), v)
      decreases depth
    {
      if kind.AliasArg? {
        kind.reference.SetValue(v);
      } else if kind.CollectionArg? {
        values := values + [AsString(v)];
      } else {
        value := v;
      }
    }

    /** `Reset`: the base class stores the default through the `Value` setter,
        so an alias writes its own copied default into the end of its chain;
        a collection clears its list instead. */
    method Reset()
      requires Valid()
      modifies Target()`value, Target()`values
      ensures Target().Stored() == if kind.AliasArg? then Write(Target().kind.CollectionArg?, old(Target().Stored()), defaultValue)
                                 else Cleared(kind.CollectionArg?, old(Stored()), defaultValue)
    {
      if kind.CollectionArg? {
        values := [];
      } else {
        SetValue(defaultValue);
      }
    }

    /** The `DefaultValue` setter: through an alias it writes the reference's
        default, one link deep. */
    method SetDefaultValue(v: Value)
      modifies DefaultOwner()`defaultValue
      ensures DefaultOwner().defaultValue == v
    {
      if kind.AliasArg? {
        kind.reference.defaultValue := v;
      } else {
        defaultValue := v;
      }
    }

    /** The `Validate` override of a non-alias argument. A flag rejects only a
        non-bool value and only when it is required; an option or a collection
        asks its `Validator`, or accepts everything when there is none; a set
        ignores the `Validator` and asks whether `value as string` is one of
        its options. */
    predicate ValidateOwn(v: Value)
      reads this
    {
      match kind
      case FlagArg => !isRequired || v.VBool?
      case OptionArg => validator.None? || validator.value(v)
      case CollectionArg => validator.None? || validator.value(v)
      case SetArg(options) => AsString(v) in options
      case AliasArg(_) => true
    }

    /** `Validate`: an alias asks its reference, so every alias of a chain
        judges a value as the chain's end does. */
    predicate Validate(v: Value)
      requires Valid()
      reads Target()
      ensures Validate(v) == Target().ValidateOwn(v)
      decreases depth
    {
      if kind.AliasArg? then kind.reference.Validate(v) else ValidateOwn(v)
    }

    // The properties an alias reports under its own static type: the
    // reference's fields, read one link deep.

    /** `DefaultValue` read through an alias: the reference's own default,
        which may differ from the snapshot the alias took when it was made. */
    function AliasDefaultValue(): (r: Value)
      reads DefaultOwner()
      ensures kind.AliasArg? ==> r == kind.reference.defaultValue
      ensures !kind.AliasArg? ==> r == defaultValue
    {
      DefaultOwner().defaultValue
    }

    /** `IsRequired` read through an alias: the reference's flag. */
    function AliasIsRequired(): (r: bool)
      ensures kind.AliasArg? ==> r == kind.reference.isRequired
      ensures !kind.AliasArg? ==> r == isRequired
    {
      DefaultOwner().isRequired
    }

    /** `Position` read through an alias: the reference's position, although
        the alias itself has none. */
    function AliasPosition(): (r: Option<int>)
      reads DefaultOwner()
      ensures kind.AliasArg? ==> r == kind.reference.position
      ensures !kind.AliasArg? ==> r == position
    {
      DefaultOwner().position
    }

    /** `SupportsMultipleValues` read through an alias: the reference's flag,
        although the alias itself does not support several values. */
    function AliasSupportsMultipleValues(): (r: bool)
      ensures kind.AliasArg? ==> r == kind.reference.supportsMultipleValues
      ensures !kind.AliasArg? ==> r == supportsMultipleValues
    {
      DefaultOwner().supportsMultipleValues
    }
  }

  // `Reset` of an alias goes through the `Value` setter.

  /** Resetting an alias of a flag twice leaves what one reset leaves: the
      flag holds the default, whatever it was given before ... */
  method AliasResetIdempotent(flagDefault: bool, given: bool) returns (once: Value, twice: Value)
    ensures once == VBool(flagDefault) && twice == once
  {
    var reference := new Argument.FlagArgument(flagDefault, false, None);
    var alias := new Argument.AliasArgument(reference);
    assert alias.Target() == reference;
    reference.SetValue(VBool(given));
    alias.Reset();
    once := alias.GetValue();
    alias.Reset();
    twice := alias.GetValue();
  }

  /** ... but an alias of a collection writes its default, `null`, through
      the setter, so every `Reset` appends one more `null`. */
  method AliasOfCollectionResetAppends(x: string) returns (once: Value, twice: Value)
    ensures once == VStrs([Some(x), None]) && twice == VStrs([Some(x), None, None])
  {
    var collection := new Argument.CollectionArgument(false, None);
    var alias := new Argument.AliasArgument(collection);
    assert alias.Target() == collection;
    collection.SetValue(VStr(x));
    alias.Reset();
    once := alias.GetValue();
    alias.Reset();
    twice := alias.GetValue();
  }

  // ---------------------------------------------------------------------------
  // The scenarios of the unit tests, as methods over fresh objects
  // ---------------------------------------------------------------------------

  /** An alias of an option at position 123 reports the option's default,
      requiredness, position and multiplicity (AliasArgumentTests.cs). */
  method ReferenceIsUsedForProperties() returns (d: Value, req: bool, pos: Option<int>, multi: bool)
    ensures d == VStr("default") && !req && pos == Some(123) && !multi
  {
    var reference := new Argument.OptionArgument(Some("default"), false, Some(123));
    var alias := new Argument.AliasArgument(reference);
    d, req, pos, multi := alias.AliasDefaultValue(), alias.AliasIsRequired(), alias.AliasPosition(),
                          alias.AliasSupportsMultipleValues();
  }

  /** Resetting an alias of a flag stores the flag's default in the flag, and
      the alias reads it back (AliasArgumentTests.cs). */
  method ResetSetsDefaultValueOfReference(flagDefault: bool) returns (v: Value)
    ensures v == VBool(flagDefault)
  {
    var reference := new Argument.FlagArgument(flagDefault, false, None);
    var alias := new Argument.AliasArgument(reference);
    assert alias.Target() == reference;
    alias.Reset();
    v := alias.GetValue();
  }

  /** A reset flag reads its constructed default (FlagArgumentTests.cs). */
  method ResetSetsDefaultValue(flagDefault: bool) returns (v: Value)
    ensures v == VBool(flagDefault)
  {
    var arg := new Argument.FlagArgument(flagDefault, false, None);
    arg.Reset();
    v := arg.GetValue();
  }

  /** A required flag starts with a null default, so after `Reset` its own
      `Validate` rejects its value; a given flag is accepted. */
  method RequiredFlagRejectsResetState() returns (afterReset: bool, afterGiven: bool)
    ensures !afterReset && afterGiven
  {
    var arg := new Argument.FlagArgument(true, true, None);
    arg.Reset();
    afterReset := arg.Validate(arg.GetValue());
    arg.SetValue(VBool(true));
    afterGiven := arg.Validate(arg.GetValue());
  }

  /** A collection gathers its writes in order as strings, writes of other
      values as `null`, and `Reset` empties it. */
  method CollectionGathersWrites(x: string, y: string) returns (gathered: Value, cleared: Value)
    ensures gathered == VStrs([Some(x), None, Some(y)])
    ensures cleared == VStrs([])
  {
    var c := new Argument.CollectionArgument(false, None);
    c.SetValue(VStr(x));
    c.SetValue(VBool(true));
    c.SetValue(VStr(y));
    gathered := c.GetValue();
    c.Reset();
    cleared := c.GetValue();
  }

  /** A set accepts exactly the listed strings and ignores its `Validator`. */
  method SetIgnoresValidator(options: seq<Option<string>>, v: Value) returns (ok: bool)
    ensures ok <==> AsString(v) in options
  {
    var s := new Argument.SetArgument(options, None, false, None);
    s.validator := Some((_: Value) => false);
    ok := s.Validate(v);
  }

  /** An option without a `Validator` accepts everything, a missing value of
      a required option included; with one, it answers as the `Validator`. */
  method OptionAsksValidator(required: bool, check: Value -> bool, v: Value)
    returns (unchecked: bool, checked: bool)
    ensures unchecked && (checked == check(v))
  {
    var o := new Argument.OptionArgument(None, required, None);
    unchecked := o.Validate(VNull);
    o.validator := Some(check);
    checked := o.Validate(v);
  }
}
