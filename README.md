# DotArgs / NetArgs command-line parsing, modelled in Dafny

This project models the argument-processing engine of the DotArgs C#
command-line parser and of its predecessor NetArgs. It also proves
properties of that model.

- **Tokenizer and token classifier** (`command_line_helper.dfy`, module `CommandLineHelper`):
  - `SplitCommandLine` splits a command line into tokens and honours single and double quotes.
  - `GetArgName` strips the leading `-`/`/` run of a token and cuts the name at the last `=`/`:`.
  - `ExtractValueFromArg` returns the text after the first `=`/`:`.
  - `DotArgs/CommandLineArgs.cs` and `NetArgs/CommandLineArgs.cs` each hold all three functions,
    and their copies are equivalent. `DotArgs/CommandLineHelper.cs` holds equivalent copies of
    `GetArgName` and `SplitCommandLine` only; its `GetArgName` differs just in how it writes the
    array of separators. The functions are modelled once, and both engines use that one model.
  - Each loop is a `method` proved equal to a specification function. The lemmas state what
    that function means: which prefix characters are removed, where the name ends, when
    `Substring` throws, which tokens come out, how quotes work, and the round trip with
    `string.Join(" ", args)`.
- **Value storage** (`storage.dfy`, module `Storage`): holds either one value (a scalar
  argument) or an append-only list of strings (a collection), with write, read and reset.
- **The later DotArgs argument family** (`arguments.dfy`, module `Arguments`, from
  `DotArgs/*.cs`): Flag, Option, Set, Collection and Alias.
  - They form one `class`, with one named constructor per C# subclass.
  - Mutable state is held in fields, and `modifies` frames say what each method changes.
  - An alias holds a reference to the object it was built from.
- **The DotArgs engine** (`dotargs.dfy`, modules `DotArgs` and `DotArgsProperties`): the
  `CommandLineArgs` class of `DotArgs/CommandLineArgs.cs`, together with the older argument
  classes that file embeds.
- **The NetArgs engine** (`netargs.dfy`, modules `NetArgs` and `NetArgsProperties`):
  `CommandLineArgs` with `CommandEntry`, its subclasses and the `CommandType` enum.

How the two engines are specified:
- The registry is a `map<string, Argument>` (a `Dictionary` in C#) of objects. An alias holds
  an object, not a name, so re-registering the original name leaves the alias on the old object.
- `Process` is a method that really mutates the registered objects. Its `ensures` ties the
  resulting outcome and storage to `ProcessSpec`. `ProcessSpec` is a specification function
  made of three parts:
  - `ResetStore`, the reset pass;
  - `Walk`, the token loop;
  - `Passes`, the validation pass.
- The store these functions read maps each reachable argument object to its value storage.
  The lemmas in the `…Properties` modules are stated over these functions. They cover:
  - running `Process` twice with the same input gives the same result (in DotArgs, as long as
    every alias chain ends at a registered argument);
  - an argument the command line does not name reads its default afterwards;
  - how each token spelling is consumed;
  - errors that stick once raised;
  - last-value-wins for options and append order for collections;
  - alias behaviour;
  - validation outcomes.

C# runtime values (`object`) become the datatype
`Value = VNull | VBool | VStr | VStrs`. A C# exception the engine can throw becomes an
`Option`/`Outcome` result:
- `KeyNotFoundException` makes `RegisterAlias`, `AddAlias` and `SetCollection` return `false`,
  and `GetValue`/`Get*` return `None`.
- `ArgumentOutOfRangeException` from `GetArgName` becomes `Threw`.

The user's `Validator` delegates are function values stored in the objects.

## Model

| member | source | states |
|---|---|---|
| Common.AsString | DotArgs/SetArgument.cs:42 | `value as string` is a string exactly when the value is one, and then it is that string |
| Common.IsWhiteSpace | DotArgs/CommandLineHelper.cs:78 | among ASCII characters, exactly the space and the controls from tab to carriage return are white space, as `Char.IsWhiteSpace` has it |
| Common.IsNullOrWhiteSpace | DotArgs/CommandLineArgs.cs:110 | null and the empty string count as blank; a string whose first character is not white space does not |
| CommandLineHelper.GetArgName | DotArgs/CommandLineHelper.cs:8-40 | the prefix/separator loop returns `ArgName(arg)`: the token without its first `remove` characters, cut at the last separator, or `None` where `Substring` would throw |
| CommandLineHelper.ScanFromIsReference | DotArgs/CommandLineHelper.cs:13-31 | after `i` characters the loop state is: the prefix characters counted before the first ordinary character, the last separator seen (or the length), and whether no ordinary character has appeared yet |
| CommandLineHelper.ArgNameIsReference | DotArgs/CommandLineHelper.cs:33-39 | the name is `arg[p..e]`, where `p` counts the prefixes in the leading `-`/`/`/`=`/`:` run and `e` is the last separator (or the length); it is `None` when `e < p` |
| CommandLineHelper.ArgNameStripsLeadingRun | DotArgs/CommandLineHelper.cs:17-39 | when the leading run holds no separator, the whole run is removed and the name ends at the last separator, or at the end of the token |
| CommandLineHelper.ArgNameFailsOnlyOnSeparatorInRun | DotArgs/CommandLineHelper.cs:19-39 | `GetArgName` throws only if a separator lies inside the leading run |
| CommandLineHelper.ArgNameOfBareName | DotArgs/CommandLineHelper.cs:13-39 | a token with no leading prefix and no separator is returned unchanged |
| CommandLineHelper.ArgNameNotLonger | DotArgs/CommandLineHelper.cs:33-39 | the name is never longer than the token |
| CommandLineHelper.ArgNameOfSpelledToken | DotArgs/CommandLineHelper.cs:17-39 | prefix run + name + optional `=`/`:` value gives exactly the name, for every prefix run and every value without a separator; a later `-`/`/` in the name is kept |
| CommandLineHelper.ArgNamePrefixExamples | DotArgsTests/CommandLineHelperTests.cs:13-41 | "/arg", "-arg", "arg", "--arg", "//arg" and "/--/-/-//arg" all give "arg" |
| CommandLineHelper.ArgNameKeepsLaterPrefixExamples | DotArgsTests/CommandLineHelperTests.cs:25-38 | "/arg-", "/arg/", "/arg--" and "//arg--" keep their trailing `-`/`/` |
| CommandLineHelper.ArgNameEqualsExamples | DotArgsTests/CommandLineHelperTests.cs:43-50 | "/option=value" and "--option=value" give "option" |
| CommandLineHelper.ArgNameColonExamples | DotArgsTests/CommandLineHelperTests.cs:46-53 | "/option:value" and "--option:value" give "option" |
| CommandLineHelper.ArgNameThrowsExample | DotArgs/CommandLineHelper.cs:19-39 | on "=-x" the cut point is negative, so `GetArgName` throws |
| CommandLineHelper.IndexOfSeparator | DotArgs/CommandLineArgs.cs:324 | `IndexOfAny`: -1 when there is no separator, otherwise the first one |
| CommandLineHelper.ExtractValueFromArg | DotArgs/CommandLineArgs.cs:320-331 | there is no inline value exactly when the token has no `=`/`:` |
| CommandLineHelper.ExtractValueOfSpelledToken | DotArgs/CommandLineArgs.cs:320-331 | for prefix + name + tail, the value is whatever follows the first separator, separators included; with no tail there is none |
| CommandLineHelper.NameAndValueCutDifferently | DotArgs/CommandLineArgs.cs:320-364 | "/a=b=c" has the name "a=b" (the last separator) and the value "b=c" (after the first) |
| CommandLineHelper.Flush | DotArgs/CommandLineHelper.cs:78-82 | the buffer becomes a token exactly when it is not blank |
| CommandLineHelper.Run | DotArgs/CommandLineHelper.cs:50-93 | the quote-aware loop only appends tokens, keeps every token non-blank, and is never inside both kinds of quote at once |
| CommandLineHelper.SplitCommandLine | DotArgs/CommandLineHelper.cs:42-101 | the loop over the characters, with its buffer and two quote flags, returns `Split(args)` |
| CommandLineHelper.SplitNoBlankTokens | DotArgs/CommandLineHelper.cs:78-98 | no token is empty or whitespace-only |
| CommandLineHelper.RunConcat | DotArgs/CommandLineHelper.cs:50-93 | splitting `a + b` continues the state left by `a` |
| CommandLineHelper.SplitUnquoted | DotArgs/CommandLineHelper.cs:74-98 | without quotes the tokens are the non-blank pieces between single spaces |
| CommandLineHelper.QuotedSpanKeptLiterally | DotArgs/CommandLineHelper.cs:52-73 | an opening and a closing quote are dropped, and the text between them (spaces and the other kind of quote) joins the buffer unchanged |
| CommandLineHelper.UnterminatedQuoteKeepsRest | DotArgs/CommandLineHelper.cs:84-98 | after an unmatched quote the rest of the input is the last token, with no error |
| CommandLineHelper.LeadingSpaceAddsNothing | DotArgs/CommandLineHelper.cs:76-83 | a leading space adds no token |
| CommandLineHelper.TrailingSpaceAddsNothing | DotArgs/CommandLineHelper.cs:76-98 | a trailing space outside quotes adds no token |
| CommandLineHelper.SpaceRunsCollapse | DotArgs/CommandLineHelper.cs:76-83 | two spaces outside quotes split like one |
| CommandLineHelper.SplitJoinWords | DotArgs/CommandLineArgs.cs:218-221 | splitting `string.Join(" ", ws)` gives back `ws` when every word is non-blank and has no space or quote |
| CommandLineHelper.SplitSpacedWords | DotArgs/CommandLineHelper.cs:74-98 | words separated by runs of one or more spaces split back into the words |
| CommandLineHelper.WordThenQuotedSpan | DotArgs/CommandLineHelper.cs:52-98 | `word "text"` splits into the word and the text |
| CommandLineHelper.WordThenOpenSpan | DotArgs/CommandLineHelper.cs:84-98 | `word "text` with no closing quote splits into the word and the text |
| CommandLineHelper.SplitPlainExample | DotArgsTests/CommandLineHelperTests.cs:59-60 | "this is a test" gives the four words |
| CommandLineHelper.SplitDoubleQuotedExamples | DotArgsTests/CommandLineHelperTests.cs:62-69 | `this "is a test"` and `this "is 'a' test"` keep the quoted text as one token |
| CommandLineHelper.SplitSingleQuotedExamples | DotArgsTests/CommandLineHelperTests.cs:65-72 | `this 'is a test'` and `this 'is "a" test'` keep the quoted text as one token |
| CommandLineHelper.SplitSpacedExample | DotArgsTests/CommandLineHelperTests.cs:74-75 | "this  is    a  test " gives the four words |
| CommandLineHelper.SplitOpenQuoteExample | DotArgs/CommandLineHelper.cs:84-98 | "a 'b c" gives "a" and "b c" |
| Storage.ReadAfterWrite | DotArgs/CollectionArgument.cs:47-57 | a scalar reads back the value written; a collection reads its earlier strings plus `value as string` |
| Storage.AsStrings | DotArgs/CollectionArgument.cs:56 | each written value is stored as `value as string`, in write order |
| Storage.CollectionAppendsInOrder | DotArgs/CollectionArgument.cs:54-57 | a run of writes to a collection appends them in order after the earlier ones |
| Storage.ScalarKeepsLastWrite | DotArgs/Argument.cs:99 | after a run of writes a scalar holds the last one |
| Storage.ReadAfterReset | DotArgs/CollectionArgument.cs:36-39 | after reset a collection reads as an empty array and a scalar as its default |
| Storage.ResetForgetsWrite | DotArgs/Argument.cs:44-47 | a reset erases any earlier write |
| Storage.ResetIdempotent | DotArgs/Argument.cs:44-47 | resetting twice is resetting once |
| Arguments.Argument.FlagArgument | DotArgs/FlagArgument.cs:31-38 | a flag needs no value and supports one value; a required flag's default is null whatever was passed; the position is kept as given |
| Arguments.Argument.OptionArgument | DotArgs/OptionArgument.cs:32-37 | an option needs a value, its placeholder is "OPTION", and a required option's default is null |
| Arguments.Argument.SetArgument | DotArgs/SetArgument.cs:29-33 | a set is an option whose valid options are fixed at construction |
| Arguments.Argument.CollectionArgument | DotArgs/CollectionArgument.cs:27-33 | a collection needs a value, supports several values, has placeholder "COLLECTION", a null default and an empty list |
| Arguments.Argument.AliasArgument | DotArgs/AliasArgument.cs:25-29 | an alias snapshots the reference's requiredness and (null when required) default into its own base fields; `NeedsValue` stays false |
| Arguments.Argument.GetValue | DotArgs/AliasArgument.cs:33-36 | the value read through any alias chain is the value held at the chain's end: a scalar's value, or a collection's strings |
| Arguments.Argument.SetValue | DotArgs/AliasArgument.cs:40-43 | a write through any alias chain lands at the chain's end, overwriting a scalar or appending to a collection |
| Arguments.Argument.Reset | DotArgs/Argument.cs:44-47 | a scalar takes its default, a collection empties, and an alias writes its own default snapshot through to its reference |
| Arguments.Argument.SetDefaultValue | DotArgs/AliasArgument.cs:59-63 | the `DefaultValue` setter of an alias writes the reference's default |
| Arguments.Argument.Validate | DotArgs/AliasArgument.cs:50-53 | an alias judges a value exactly as the end of its chain does |
| Arguments.Argument.AliasDefaultValue | DotArgs/AliasArgument.cs:59-63 | an alias's `DefaultValue` is its reference's own default, not the snapshot it took |
| Arguments.Argument.AliasIsRequired | DotArgs/AliasArgument.cs:68 | an alias's `IsRequired` is its reference's flag |
| Arguments.Argument.AliasPosition | DotArgs/AliasArgument.cs:71 | an alias's `Position` is its reference's position, although the alias has none of its own |
| Arguments.Argument.AliasSupportsMultipleValues | DotArgs/AliasArgument.cs:76 | an alias's `SupportsMultipleValues` is its reference's flag |
| Arguments.AliasResetIdempotent | DotArgs/Argument.cs:44-47 | calling `Reset` twice on an alias of a flag leaves the flag's default, as one call does, whatever the flag held before |
| Arguments.AliasOfCollectionResetAppends | DotArgs/CollectionArgument.cs:54-57 | each `Reset` of an alias of a collection appends one more null to the collection's strings |
| Arguments.ReferenceIsUsedForProperties | DotArgsTests/AliasArgumentTests.cs:12-19 | an alias of an option at position 123 reports the option's default, requiredness, position and multiplicity |
| Arguments.ResetSetsDefaultValueOfReference | DotArgsTests/AliasArgumentTests.cs:22-35 | after an alias of a flag is reset, it reads the flag's default |
| Arguments.ResetSetsDefaultValue | DotArgsTests/FlagArgumentTests.cs:12-18 | a reset non-required flag reads its constructed default |
| Arguments.RequiredFlagRejectsResetState | DotArgs/FlagArgument.cs:45-48 | a reset required flag fails its own validation; once set to a bool it passes |
| Arguments.CollectionGathersWrites | DotArgs/CollectionArgument.cs:36-57 | writes are gathered in order (a non-string as null), and reset empties the list |
| Arguments.SetIgnoresValidator | DotArgs/SetArgument.cs:40-43 | a set accepts exactly its listed strings, even when a `Validator` rejects everything |
| Arguments.OptionAsksValidator | DotArgs/OptionArgument.cs:44-52 | without a `Validator` an option accepts everything, null included; with one, it answers exactly as the `Validator` |
| DotArgs.Argument.FlagArgument | DotArgs/CommandLineArgs.cs:473-480 | a required flag's default is null |
| DotArgs.Argument.OptionArgument | DotArgs/CommandLineArgs.cs:511-515 | an option keeps the default it was given, even when required |
| DotArgs.Argument.SetArgument | DotArgs/CommandLineArgs.cs:544-548 | a set is an option with a fixed list of options |
| DotArgs.Argument.CollectionArgument | DotArgs/CommandLineArgs.cs:141-145 | a collection starts with a null default and an empty list |
| DotArgs.Argument.AliasArgument | DotArgs/CommandLineArgs.cs:29-33 | an alias copies its reference's default and requiredness into its own fields |
| DotArgs.Argument.GetValue | DotArgs/CommandLineArgs.cs:37-40 | reads through aliases return the value at the chain's end |
| DotArgs.Argument.SetValue | DotArgs/CommandLineArgs.cs:44-47 | writes through aliases land at the chain's end, overwriting or appending |
| DotArgs.Argument.Reset | DotArgs/CommandLineArgs.cs:89-92 | an argument resets only its own field, so an alias does not reset its reference; a collection empties its list |
| DotArgs.Argument.Validate | DotArgs/CommandLineArgs.cs:487-497 | a flag accepts exactly a bool, required or not (the later `FlagArgument.cs` accepts anything when not required); an option or a collection without a `Validator` (lines 522-530) accepts everything; a set (lines 557-560) accepts a non-string only when its list holds null; the base rule an alias keeps (lines 106-114) accepts everything when not required and otherwise exactly a non-blank string |
| DotArgs.ResetStore | DotArgs/CommandLineArgs.cs:367-373 | every registered object then reads its default, or an empty array when it is a collection; an object no longer registered keeps its storage |
| DotArgs.CommandLineArgs.constructor | DotArgs/CommandLineArgs.cs:178-181 | the registry starts empty |
| DotArgs.CommandLineArgs.RegisterArgument | DotArgs/CommandLineArgs.cs:307-310 | the name is bound to the object, silently replacing an earlier one |
| DotArgs.CommandLineArgs.RegisterAlias | DotArgs/CommandLineArgs.cs:293-302 | fails, changing nothing, exactly when the original is unregistered; otherwise binds the alias to a new alias object of the original |
| DotArgs.CommandLineArgs.GetValue | DotArgs/CommandLineArgs.cs:192-201 | `None` exactly for an unregistered name; otherwise the value at the end of the entry's chain |
| DotArgs.CommandLineArgs.Reset | DotArgs/CommandLineArgs.cs:367-373 | afterwards the storage of every object is `ResetStore` of what it was before |
| DotArgs.CommandLineArgs.Validate | DotArgs/CommandLineArgs.cs:436-449 | true exactly when every registered non-alias argument accepts its own value |
| DotArgs.CommandLineArgs.Put | DotArgs/CommandLineArgs.cs:263-276 | the `SetValue` call of the token loop changes only the storage at the end of the entry's chain, which overwrites or appends, and leaves every other object alone |
| DotArgs.CommandLineArgs.Step | DotArgs/CommandLineArgs.cs:238-277 | one loop iteration advances the index and takes the store where `Walk` goes next |
| DotArgs.CommandLineArgs.Apply | DotArgs/CommandLineArgs.cs:248-276 | a registered name writes its inline value, the next token, or `true`, as `Walk` does |
| DotArgs.CommandLineArgs.WalkTokens | DotArgs/CommandLineArgs.cs:238-277 | the whole token loop leaves the store, the error flag and any throw that `Walk` gives |
| DotArgs.CommandLineArgs.Process | DotArgs/CommandLineArgs.cs:231-285 | the outcome and the new storage are `ProcessSpec` of the old storage |
| DotArgs.CommandLineArgs.ProcessArgs | DotArgs/CommandLineArgs.cs:218-221 | an array of arguments is processed as its words joined by single spaces |
| DotArgsProperties.ResetAfterWalk | DotArgs/CommandLineArgs.cs:233 | when every chain ends at a registered object, resetting after a token loop is the same as resetting before it |
| DotArgsProperties.ResetStoreIdempotent | DotArgs/CommandLineArgs.cs:367-373 | the reset pass is idempotent |
| DotArgsProperties.ProcessIsIdempotent | DotArgs/CommandLineArgs.cs:231-285 | when every alias chain ends at a registered argument, processing the same input twice gives the same outcome and values |
| DotArgsProperties.StaleAliasBreaksIdempotence | DotArgs/CommandLineArgs.cs:293-310 | without that condition idempotence fails: once the name of an aliased collection is registered again, each `Process` of the alias appends another null to the old collection |
| DotArgsProperties.WalkInlineValue | DotArgs/CommandLineArgs.cs:251-266 | `-n=v` / `/n:v` on an argument that needs a value stores `v` and consumes one token |
| DotArgsProperties.WalkNextTokenValue | DotArgs/CommandLineArgs.cs:254-266 | with no inline value the next token is stored unconditionally, and both tokens are consumed |
| DotArgsProperties.WalkMissingValue | DotArgs/CommandLineArgs.cs:256-271 | a last token that needs a value and has none is an error and changes nothing |
| DotArgsProperties.WalkSwitch | DotArgs/CommandLineArgs.cs:273-276 | a flag or an alias token writes `true` to the end of its chain |
| DotArgsProperties.WalkErrorsStay | DotArgs/CommandLineArgs.cs:235-277 | once a token error has occurred, it is never cleared |
| DotArgsProperties.WalkUnknownName | DotArgs/CommandLineArgs.cs:240-246 | an unregistered name is an error and is skipped without consuming a value |
| DotArgsProperties.ProcessOfPlainWords | DotArgs/CommandLineArgs.cs:218-237 | processing joined plain words walks exactly those words |
| DotArgsProperties.ProcessEmpty | DotArgs/CommandLineArgs.cs:231-285 | an empty command line resets every argument and answers the validation pass |
| DotArgsProperties.WalkLeavesUnnamed | DotArgs/CommandLineArgs.cs:238-277 | the token loop leaves alone the storage of every object that no token names |
| DotArgsProperties.OmittedReadsDefault | DotArgs/CommandLineArgs.cs:185-187 | after `Process` of a command line that does not name an argument, the argument reads its default, or an empty array for a collection, when its chain ends at a registered argument |
| DotArgsProperties.OmittedGetValue | DotArgs/CommandLineArgs.cs:185-201 | `GetValue` after such a `Process` returns that default |
| DotArgsProperties.RequiredFlagAbsentFails | DotArgs/CommandLineArgs.cs:487-497 | a required flag that the command line does not name makes `Process` fail, for every command line |
| DotArgsProperties.RequiredFlagThroughAlias | DotArgs/CommandLineArgs.cs:29-47 | an alias token sets its required flag to `true`, and `Process` returns true |
| DotArgsProperties.LastValueWins | DotArgs/CommandLineArgs.cs:263-266 | with two values for an option, the second one is kept |
| DotArgsProperties.CollectionGathersInOrder | DotArgs/CommandLineArgs.cs:155-158 | two values for a collection are appended in token order |
| DotArgsProperties.ValueSwallowsFlag | DotArgs/CommandLineArgs.cs:256-261 | a token naming a flag is consumed as the value of a preceding option |
| NetArgs.CommandEntry.Type | NetArgs/CommandLineArgs.cs:527 | an alias reports the type of the end of its chain |
| NetArgs.CommandEntry.FlagEntry | NetArgs/CommandLineArgs.cs:71-77 | a flag entry stores its default always, but its value only when it is not required |
| NetArgs.CommandEntry.OptionEntry | NetArgs/CommandLineArgs.cs:126-133 | an option entry stores its default and validator always, but its value only when it is not required |
| NetArgs.CommandEntry.CollectionEntry | NetArgs/CommandLineArgs.cs:536-541 | a collection has empty arrays as default and value and keeps the option's requiredness |
| NetArgs.CommandEntry.AliasEntry | NetArgs/CommandLineArgs.cs:514-517 | an alias entry holds its reference |
| NetArgs.CommandEntry.DefaultValue | NetArgs/CommandLineArgs.cs:519-523 | an alias's default is that of the end of its chain |
| NetArgs.CommandEntry.Required | NetArgs/CommandLineArgs.cs:525 | an alias's requiredness is that of the end of its chain |
| NetArgs.CommandEntry.GetValue | NetArgs/CommandLineArgs.cs:529 | an alias's value is that of the end of its chain |
| NetArgs.CommandEntry.SetValue | NetArgs/CommandLineArgs.cs:529 | a write through an alias lands at the end of its chain |
| NetArgs.CommandEntry.Validate | NetArgs/CommandLineArgs.cs:493-501 | a flag accepts everything when not required and otherwise exactly a non-blank string; an option or a collection without a `Validator` (lines 553-561) accepts everything, required or not |
| NetArgs.CommandLineArgs.constructor | NetArgs/CommandLineArgs.cs:28-31 | the registry starts empty |
| NetArgs.CommandLineArgs.AddAlias | NetArgs/CommandLineArgs.cs:39-48 | fails, changing nothing, exactly when the original is missing; otherwise binds a new alias of the original |
| NetArgs.CommandLineArgs.AddFlag | NetArgs/CommandLineArgs.cs:69-80 | binds a new flag (replacing any earlier entry) with the stated default, requiredness and initial value |
| NetArgs.CommandLineArgs.AddOption | NetArgs/CommandLineArgs.cs:124-136 | binds a new option with the stated default, validator, requiredness and initial value |
| NetArgs.CommandLineArgs.SetCollection | NetArgs/CommandLineArgs.cs:329-338 | fails exactly for a missing name; otherwise replaces the entry with a new collection that keeps the requiredness |
| NetArgs.CommandLineArgs.GetFlag | NetArgs/CommandLineArgs.cs:172-186 | `None` exactly for a missing name or a non-flag (an alias counts as its target's type); otherwise the flag's bool |
| NetArgs.CommandLineArgs.GetOption | NetArgs/CommandLineArgs.cs:197-211 | `None` exactly for a missing name or a non-option; otherwise `value as string` |
| NetArgs.CommandLineArgs.GetCollection | NetArgs/CommandLineArgs.cs:147-161 | `None` exactly for a missing name or a non-collection; otherwise its strings |
| NetArgs.CommandLineArgs.Reset | NetArgs/CommandLineArgs.cs:395-401 | afterwards the storage is `ResetStore` of what it was before |
| NetArgs.CommandLineArgs.Validate | NetArgs/CommandLineArgs.cs:464-477 | true exactly when every non-alias entry accepts `Value as string` |
| NetArgs.CommandLineArgs.Put | NetArgs/CommandLineArgs.cs:263-287 | a write through an entry changes only the end of its chain, and keeps flags bool and collections arrays |
| NetArgs.CommandLineArgs.Step | NetArgs/CommandLineArgs.cs:248-296 | one loop iteration advances the index and takes the store where `Walk` goes next |
| NetArgs.CommandLineArgs.Apply | NetArgs/CommandLineArgs.cs:258-295 | a registered name is dispatched on its type as `Walk` does |
| NetArgs.CommandLineArgs.ApplyValue | NetArgs/CommandLineArgs.cs:267-294 | an option takes the value, and a collection a copy with the value appended, as `Walk` does |
| NetArgs.CommandLineArgs.WalkTokens | NetArgs/CommandLineArgs.cs:248-296 | the token loop leaves the store, the error flag and any throw that `Walk` gives |
| NetArgs.CommandLineArgs.Process | NetArgs/CommandLineArgs.cs:241-304 | the outcome and the new storage are `ProcessSpec` of the old storage |
| NetArgs.CommandLineArgs.ProcessArgs | NetArgs/CommandLineArgs.cs:228-231 | an array of arguments is processed as its words joined by single spaces |
| NetArgs.ResetStore | NetArgs/CommandLineArgs.cs:395-401 | the end of every registered chain takes its own default (an alias resets its target), and nothing else changes |
| NetArgsProperties.ResetAfterWrite | NetArgs/CommandLineArgs.cs:395-401 | a reset erases any write made through a registered entry |
| NetArgsProperties.ResetAfterWalk | NetArgs/CommandLineArgs.cs:243 | resetting after a token loop is the same as resetting before it |
| NetArgsProperties.ResetStoreIdempotent | NetArgs/CommandLineArgs.cs:395-401 | the reset pass is idempotent |
| NetArgsProperties.ProcessIsIdempotent | NetArgs/CommandLineArgs.cs:241-304 | processing the same input twice gives the same outcome and values |
| NetArgsProperties.WalkInlineValue | NetArgs/CommandLineArgs.cs:265-289 | an inline value is stored in an option, or appended to a collection, and one token is consumed |
| NetArgsProperties.WalkNextTokenValue | NetArgs/CommandLineArgs.cs:268-289 | with no inline value the next token is taken unconditionally, and both tokens are consumed |
| NetArgsProperties.WalkMissingValue | NetArgs/CommandLineArgs.cs:268-294 | a last option or collection token with no value is an error and changes nothing |
| NetArgsProperties.WalkFlag | NetArgs/CommandLineArgs.cs:261-264 | a flag token (with or without an ignored inline value) sets the flag to `true` |
| NetArgsProperties.WalkErrorsStay | NetArgs/CommandLineArgs.cs:245-296 | once a token error has occurred, it is never cleared |
| NetArgsProperties.WalkUnknownName | NetArgs/CommandLineArgs.cs:250-256 | an unregistered name is an error and is skipped without consuming a value |
| NetArgsProperties.ProcessOfPlainWords | NetArgs/CommandLineArgs.cs:228-247 | processing joined plain words walks exactly those words |
| NetArgsProperties.ProcessEmpty | NetArgs/CommandLineArgs.cs:241-304 | an empty command line resets every entry and answers the validation pass |
| NetArgsProperties.RequiredFlagNeverPasses | NetArgs/CommandLineArgs.cs:464-477 | with a required flag registered, `Process` never returns true, whatever the input |
| NetArgsProperties.WalkLeavesUnnamed | NetArgs/CommandLineArgs.cs:248-296 | the token loop leaves alone the value of every object that no token names |
| NetArgsProperties.OmittedReadsDefault | NetArgs/CommandLineArgs.cs:140-142 | after `Process` of a command line that does not name an entry, the end of its chain holds its `DefaultValue` |
| NetArgsProperties.OmittedGettersReadDefault | NetArgs/CommandLineArgs.cs:165-166 | `GetFlag`, `GetOption` and `GetCollection` after such a `Process` return the default: the flag's bool, the option's string, an empty array |
| NetArgsProperties.WalkKeepsCovers | NetArgs/CommandLineArgs.cs:261-289 | the token loop keeps every flag a bool and every collection an array |
| NetArgsProperties.RequiredOptionNotEnforced | NetArgs/CommandLineArgs.cs:553-561 | a required option with no validator and no value still passes: `Process("")` returns true |
| NetArgsProperties.OptionThroughAlias | NetArgs/CommandLineArgs.cs:527 | an alias of an option takes a value, because it reports the option's type, and the value lands in the option |
| NetArgsProperties.LastValueWins | NetArgs/CommandLineArgs.cs:285-288 | with two values for an option, the second one is kept |
| NetArgsProperties.WalkAppends | NetArgs/CommandLineArgs.cs:279-284 | an inline value is appended to the collection's array |
| NetArgsProperties.CollectionGathersInOrder | NetArgs/CommandLineArgs.cs:279-284 | two values for a collection are appended in token order |
| NetArgsProperties.GetOptionThroughAlias | NetArgs/CommandLineArgs.cs:197-211 | `GetOption` on an alias answers as on its original |

## Left out

- Help and output are left out because they are console I/O or presentation:
  - `PrintHelp` and `SetHelpText` throw `NotImplementedException` in both engines.
  - `OutputWriter`, `ApplicationName` and `HelpMessage` are not modelled.
  - `HelpPlaceholder` appears only as its initial value.
- `Processor` is left out because the shown code never invokes it.
- `CommandLineArgs.cs` at the repository root and `DotArgs/Preconditions.cs` are not part of this model: every member of the first throws `NotImplementedException`, and nothing calls the second.
- Positional binding, default-argument fallback and error messages are absent from the code, so they are absent from the model too. The one error message is commented out.
- Some exceptions are preconditions instead of error results, because they come from C# runtime typing:
  - NetArgs.CommandLineArgs.GetFlag: a required flag read before any `Process` holds null, and `(bool)null` throws a `NullReferenceException` (`NetArgs/CommandLineArgs.cs:74-77`). The precondition excludes that state.
  - NetArgs.CommandLineArgs.GetCollection: its precondition asks for an array, which a collection always holds, so it excludes no reachable state.
  - NetArgs.CommandLineArgs.SetCollection: on a flag or on an alias, `as CommandEntryOption` gives null and a `NullReferenceException` follows. The precondition excludes both cases.
- DotArgs.CommandLineArgs.GetValue: returns the stored `Value`, not the generic `(T)` cast of `GetValue<T>`.
- NetArgs.CommandLineArgs.SetCollection: its `min` and `max` parameters are not modelled, because the source ignores them.
- The later `Argument.cs` declares no `GetValue`/`SetValue` for `AliasArgument.cs:33-43` to override. The model reads those overrides as forwarding the `Value` property to the reference, as the alias tests expect.
- Dictionary enumeration order in `Reset` and `Validate` is not modelled, and the result does not depend on it. Validation is a conjunction. In DotArgs each argument resets only its own storage. In NetArgs an alias resets the end of its chain (`NetArgs/CommandLineArgs.cs:519-529`), but every entry that writes a given end writes that end's own default, so the writes agree.
- `Char.IsWhiteSpace` is modelled as the fixed list of characters .NET classifies as white space, not by computing Unicode categories.
- Object identity of the arrays returned by `GetValue`/`ToArray` (a fresh copy on each read) is not modelled. Reads return values.
- Integer positions are unbounded `int`s. The source never does arithmetic on them.
