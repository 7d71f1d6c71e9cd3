/** The token classifier and the tokenizer of DotArgs/CommandLineHelper.cs.
    DotArgs/CommandLineArgs.cs and NetArgs/CommandLineArgs.cs carry verbatim
    private copies of the same three routines; both engines use this module. */
module CommandLineHelper {
  import opened Common

  // ---------------------------------------------------------------------------
  // Character classes
  // ---------------------------------------------------------------------------

  /** The `prefixes` array: `-` and `/`. */
  predicate IsPrefix(c: char) { c == '-' || c == '/' }

  /** The `seperators` array: `=` and `:`. */
  predicate IsSeparator(c: char) { c == '=' || c == ':' }

  /** A character that keeps the name scan "at the start": a prefix or a separator. */
  predicate IsMarker(c: char) { IsPrefix(c) || IsSeparator(c) }

  predicate NoSeparators(s: string) { forall k :: 0 <= k < |s| ==> !IsSeparator(s[k]) }

  predicate AllPrefixes(s: string) { forall k :: 0 <= k < |s| ==> IsPrefix(s[k]) }

  // ---------------------------------------------------------------------------
  // GetArgName
  // ---------------------------------------------------------------------------

  /** The three variables of GetArgName's loop. */
  datatype NameScan = NameScan(remove: nat, end: nat, atStart: bool)

  /** One iteration of GetArgName's loop on character `c` at index `i`. */
  function ScanChar(st: NameScan, i: nat, c: char): NameScan {
    if IsPrefix(c) && st.atStart then st.(remove := st.remove + 1)
    else if IsSeparator(c) then st.(end := i)
    else st.(atStart := false)
  }

  /** The loop variables after the first `i` iterations over `arg`. */
  function ScanFrom(arg: string, i: nat): (st: NameScan)
    requires i <= |arg|
    ensures st.remove <= i && st.end <= |arg|
  {
    if i == 0 then NameScan(0, |arg|, true)
    else ScanChar(ScanFrom(arg, i - 1), i - 1, arg[i - 1])
  }

  /** What GetArgName returns: the token without its first `remove` characters,
      cut at `end`; `None` where the second `Substring` call throws. */
  function ArgName(arg: string): Option<string> {
    var st := ScanFrom(arg, |arg|);
    if st.remove <= st.end then Some(arg[st.remove..st.end]) else None
  }

  /** GetArgName as the source writes it: one pass that counts the leading
      prefix characters and remembers the last separator, then two cuts. */
  method GetArgName(arg: string) returns (name: Option<string>)
    ensures name == ArgName(arg)
  {
    var end: int := |arg|;
    var remove: nat := 0;
    var atStart := true;
    var i := 0;
    while i < |arg|
      invariant 0 <= i <= |arg|
      invariant 0 <= end && NameScan(remove, end, atStart) == ScanFrom(arg, i)
    {
      if IsPrefix(arg[i]) && atStart {
        remove := remove + 1;
      } else if IsSeparator(arg[i]) {
        end := i;
      } else {
        atStart := false;
      }
      i := i + 1;
    }
    var rest := arg;
    if remove > 0 {
      rest := arg[remove..];
      end := end - remove;
    }
    if end < 0 {
      // `Substring(0, end)` with a negative length throws.
      return None;
    }
    assert rest[..end] == arg[remove..remove + end];
    name := Some(rest[..end]);
  }

  // An independent description of the scan: where the leading run of markers
  // ends, how many prefix characters a string holds, where its last separator is.

  /** Length of the leading run of prefix and separator characters. */
  function FirstOrdinary(s: string): (r: nat)
    ensures r <= |s|
    ensures forall k :: 0 <= k < r ==> IsMarker(s[k])
    ensures r < |s| ==> !IsMarker(s[r])
  {
    if s == [] || !IsMarker(s[0]) then 0
    else
      var r := 1 + FirstOrdinary(s[1..]);
      assert forall k :: 1 <= k < r ==> s[k] == s[1..][k - 1];
      r
  }

  /** Number of prefix characters in `s`. */
  function PrefixCount(s: string): (r: nat)
    ensures r <= |s|
  {
    if s == [] then 0
    else PrefixCount(s[..|s| - 1]) + (if IsPrefix(s[|s| - 1]) then 1 else 0)
  }

  /** Index of the last separator in `s`, or `-1`. */
  function LastSeparator(s: string): (r: int)
    ensures -1 <= r < |s|
    ensures r >= 0 ==> IsSeparator(s[r])
    ensures forall k :: r < k < |s| ==> !IsSeparator(s[k])
  {
    if s == [] then -1
    else if IsSeparator(s[|s| - 1]) then |s| - 1
    else LastSeparator(s[..|s| - 1])
  }

  /** Where the name ends: the last separator, or the end of the token. */
  function NameEnd(s: string): (r: nat)
    ensures r <= |s|
  {
    var j := LastSeparator(s);
    if j < 0 then |s| else j
  }

  /** The loop variables after `i` iterations, described without the loop:
      the prefix characters of the leading run read so far, the last
      separator read so far, and whether the run is still going on. */
  function ScanReference(arg: string, i: nat): NameScan
    requires i <= |arg|
  {
    var f := FirstOrdinary(arg);
    var j := LastSeparator(arg[..i]);
    NameScan(PrefixCount(arg[..if i < f then i else f]), if j < 0 then |arg| else j, i <= f)
  }

  lemma {:induction false} ScanFromIsReference(arg: string, i: nat)
    requires i <= |arg|
    ensures ScanFrom(arg, i) == ScanReference(arg, i)
  {
    if i > 0 {
      ScanFromIsReference(arg, i - 1);
      ScanReferenceStep(arg, i);
    }
  }

  /** One iteration of the loop moves the reference description on by one
      character. */
  lemma ScanReferenceStep(arg: string, i: nat)
    requires 0 < i <= |arg|
    ensures ScanReference(arg, i) == ScanChar(ScanReference(arg, i - 1), i - 1, arg[i - 1])
  {
    var f := FirstOrdinary(arg);
    LastSeparatorStep(arg, i);
    if i <= f {
      PrefixCountStep(arg, i);
    } else if i - 1 == f {
      assert !IsMarker(arg[f]);
    }
  }

  lemma LastSeparatorStep(arg: string, i: nat)
    requires 0 < i <= |arg|
    ensures LastSeparator(arg[..i]) == if IsSeparator(arg[i - 1]) then i - 1 else LastSeparator(arg[..i - 1])
  {
    assert arg[..i][..i - 1] == arg[..i - 1];
  }

  lemma PrefixCountStep(arg: string, i: nat)
    requires 0 < i <= |arg|
    ensures PrefixCount(arg[..i]) == PrefixCount(arg[..i - 1]) + if IsPrefix(arg[i - 1]) then 1 else 0
  {
    assert arg[..i][..i - 1] == arg[..i - 1];
  }

  /** GetArgName removes as many leading characters as the leading run of
      prefix and separator characters holds prefix characters, and cuts the
      name at the LAST separator of the whole token. */
  lemma ArgNameIsReference(arg: string)
    ensures var p := PrefixCount(arg[..FirstOrdinary(arg)]);
            var e := NameEnd(arg);
            ArgName(arg) == if p <= e then Some(arg[p..e]) else None
  {
    ScanFromIsReference(arg, |arg|);
    assert arg[..|arg|] == arg;
  }

  lemma {:induction false} PrefixCountAll(s: string)
    requires AllPrefixes(s)
    ensures PrefixCount(s) == |s|
  {
    if s != [] {
      PrefixCountAll(s[..|s| - 1]);
    }
  }

  /** When no separator occurs before the first ordinary character, the whole
      leading run of `-` and `/` is removed, every later `-` or `/` stays, and
      the name runs up to the last separator (or to the end of the token). */
  lemma ArgNameStripsLeadingRun(arg: string)
    requires NoSeparators(arg[..FirstOrdinary(arg)])
    ensures var f := FirstOrdinary(arg);
            f <= NameEnd(arg)
            && ArgName(arg) == Some(arg[f..NameEnd(arg)])
            && AllPrefixes(arg[..f])
            && (f < NameEnd(arg) ==> !IsPrefix(arg[f]))
  {
    var f := FirstOrdinary(arg);
    assert AllPrefixes(arg[..f]) by {
      forall k | 0 <= k < f ensures IsPrefix(arg[..f][k]) {
        assert IsMarker(arg[k]) && !IsSeparator(arg[..f][k]);
      }
    }
    PrefixCountAll(arg[..f]);
    ArgNameIsReference(arg);
  }

  /** GetArgName throws only on a token whose leading run holds a separator
      before the run's last prefix character, such as "=-x". */
  lemma ArgNameFailsOnlyOnSeparatorInRun(arg: string)
    ensures ArgName(arg).None? ==> !NoSeparators(arg[..FirstOrdinary(arg)])
  {
    if NoSeparators(arg[..FirstOrdinary(arg)]) {
      ArgNameStripsLeadingRun(arg);
    }
  }

  /** A token without prefix and without separator is its own name; in
      particular a bare registered name selects that argument. */
  lemma ArgNameOfBareName(arg: string)
    requires NoSeparators(arg)
    requires arg == [] || !IsPrefix(arg[0])
    ensures ArgName(arg) == Some(arg)
  {
    assert FirstOrdinary(arg) == 0;
    ArgNameStripsLeadingRun(arg);
    LastSeparatorNone(arg);
    assert arg[0..|arg|] == arg;
  }

  /** A name is never longer than its token. */
  lemma ArgNameNotLonger(arg: string)
    ensures ArgName(arg).Some? ==> |ArgName(arg).value| <= |arg|
  {
  }

  /** The token spellings of the source's documentation: any run of prefixes,
      the name, and either nothing or a separator and a separator-free value. */
  lemma ArgNameOfSpelledToken(p: string, n: string, tail: string)
    requires AllPrefixes(p)
    requires n != [] && !IsPrefix(n[0]) && NoSeparators(n)
    requires tail == [] || (IsSeparator(tail[0]) && NoSeparators(tail[1..]))
    ensures ArgName(p + n + tail) == Some(n)
  {
    var arg := p + n + tail;
    assert (n + tail)[0] == n[0];
    LeadingPrefixCount(p, n + tail);
    assert arg == p + (n + tail);
    NameEndAfterName(p, n, tail);
    assert arg[|p|..|p| + |n|] == n;
    ArgNameIsReference(arg);
  }

  /** Prefixes followed by a non-prefix: the leading run holds exactly them. */
  lemma LeadingPrefixCount(p: string, rest: string)
    requires AllPrefixes(p) && rest != [] && !IsMarker(rest[0])
    ensures PrefixCount((p + rest)[..FirstOrdinary(p + rest)]) == |p|
  {
    FirstOrdinaryAfterPrefixes(p, rest);
    PrefixCountAll(p);
    assert (p + rest)[..|p|] == p;
  }

  /** The name ends at the separator of the tail, or at the end. */
  lemma NameEndAfterName(p: string, n: string, tail: string)
    requires AllPrefixes(p) && NoSeparators(n)
    requires tail == [] || (IsSeparator(tail[0]) && NoSeparators(tail[1..]))
    ensures NameEnd(p + n + tail) == |p| + |n|
  {
    NoSeparatorsConcat(p, n);
    var arg := p + n + tail;
    if tail != [] {
      assert arg == p + n + [tail[0]] + tail[1..];
      LastSeparatorAfter(p + n, tail[0], tail[1..]);
    } else {
      assert arg == p + n;
      LastSeparatorNone(arg);
    }
  }

  lemma NoSeparatorsConcat(p: string, n: string)
    requires AllPrefixes(p) && NoSeparators(n)
    ensures NoSeparators(p + n)
  {
    forall k | 0 <= k < |p + n| ensures !IsSeparator((p + n)[k]) {
      if k < |p| { assert (p + n)[k] == p[k]; } else { assert (p + n)[k] == n[k - |p|]; }
    }
  }

  lemma {:induction false} LastSeparatorAfter(a: string, c: char, b: string)
    requires IsSeparator(c) && NoSeparators(b)
    ensures LastSeparator(a + [c] + b) == |a|
  {
    var s := a + [c] + b;
    if b != [] {
      var b' := b[..|b| - 1];
      assert s[..|s| - 1] == a + [c] + b';
      assert s[|s| - 1] == b[|b| - 1];
      LastSeparatorAfter(a, c, b');
    }
  }

  lemma {:induction false} FirstOrdinaryAfterPrefixes(p: string, s: string)
    requires AllPrefixes(p)
    requires s != [] && !IsMarker(s[0])
    ensures FirstOrdinary(p + s) == |p|
  {
    if p != [] {
      assert (p + s)[1..] == p[1..] + s;
      FirstOrdinaryAfterPrefixes(p[1..], s);
    }
  }

  lemma {:induction false} LastSeparatorNone(s: string)
    requires NoSeparators(s)
    ensures LastSeparator(s) == -1
  {
    if s != [] {
      LastSeparatorNone(s[..|s| - 1]);
    }
  }

  // ---------------------------------------------------------------------------
  // ExtractValueFromArg (DotArgs/CommandLineArgs.cs, NetArgs/CommandLineArgs.cs)
  // ---------------------------------------------------------------------------

  /** `IndexOfAny(seperators)`: the first separator's index, or `-1`. */
  function IndexOfSeparator(s: string): (r: int)
    ensures -1 <= r < |s|
    ensures r >= 0 ==> IsSeparator(s[r])
    ensures forall k :: 0 <= k < |s| && (r < 0 || k < r) ==> !IsSeparator(s[k])
  {
    if s == [] then -1
    else if IsSeparator(s[0]) then 0
    else
      var r := IndexOfSeparator(s[1..]);
      assert forall k :: 1 <= k < |s| ==> s[k] == s[1..][k - 1];
      if r < 0 then -1 else r + 1
  }

  /** The text after the first `=` or `:`; `None` (C#'s `null`) when the
      token holds neither. */
  function ExtractValueFromArg(arg: string): (r: Option<string>)
    ensures r.None? <==> NoSeparators(arg)
    ensures r.Some? ==> exists k :: 0 <= k < |arg| && IsSeparator(arg[k])
                                    && NoSeparators(arg[..k]) && r.value == arg[k + 1..]
  {
    var idx := IndexOfSeparator(arg);
    if idx == -1 then None
    else
      assert NoSeparators(arg[..idx]) by {
        forall k | 0 <= k < idx ensures !IsSeparator(arg[..idx][k]) { assert arg[..idx][k] == arg[k]; }
      }
      Some(arg[idx + 1..])
  }

  /** The inline value of every documented spelling is the text after the
      separator, whatever that text contains. */
  lemma ExtractValueOfSpelledToken(p: string, n: string, tail: string)
    requires AllPrefixes(p) && NoSeparators(n)
    requires tail == [] || IsSeparator(tail[0])
    ensures ExtractValueFromArg(p + n + tail) == if tail == [] then None else Some(tail[1..])
  {
    NoSeparatorsConcat(p, n);
    if tail != [] {
      assert p + n + tail == (p + n) + [tail[0]] + tail[1..];
      IndexOfSeparatorAfter(p + n, tail[0], tail[1..]);
      assert ((p + n) + [tail[0]] + tail[1..])[|p + n| + 1..] == tail[1..];
    } else {
      assert p + n + tail == p + n;
      IndexOfSeparatorNone(p + n);
    }
  }

  lemma {:induction false} IndexOfSeparatorAfter(a: string, c: char, b: string)
    requires NoSeparators(a) && IsSeparator(c)
    ensures IndexOfSeparator(a + [c] + b) == |a|
  {
    if a != [] {
      assert (a + [c] + b)[1..] == a[1..] + [c] + b;
      IndexOfSeparatorAfter(a[1..], c, b);
    }
  }

  lemma {:induction false} IndexOfSeparatorNone(a: string)
    requires NoSeparators(a)
    ensures IndexOfSeparator(a) == -1
  {
    if a != [] {
      IndexOfSeparatorNone(a[1..]);
    }
  }

  /** Tokens of DotArgsTests/CommandLineHelperTests.cs with their expected
      names: prefix runs of any length and kind are removed. */
  const PrefixSpellings: seq<(string, string)> :=
    [("/arg", "arg"), ("-arg", "arg"), ("arg", "arg"), ("--arg", "arg"),
     ("//arg", "arg"), ("/--/-/-//arg", "arg")]

  /** Tokens of the same test whose later `-` and `/` are kept. */
  const LaterPrefixSpellings: seq<(string, string)> :=
    [("/arg-", "arg-"), ("/arg/", "arg/"), ("/arg--", "arg--"), ("//arg--", "arg--")]

  /** Tokens of the same test that carry an inline value after `=`. */
  const EqualsSpellings: seq<(string, string)> :=
    [("/option=value", "option"), ("--option=value", "option")]

  /** Tokens of the same test that carry an inline value after `:`. */
  const ColonSpellings: seq<(string, string)> :=
    [("/option:value", "option"), ("--option:value", "option")]

  lemma ArgNamePrefixExamples()
    ensures forall i :: 0 <= i < |PrefixSpellings| ==>
              ArgName(PrefixSpellings[i].0) == Some(PrefixSpellings[i].1)
  {
    var t := PrefixSpellings;
    forall i | 0 <= i < |t| ensures ArgName(t[i].0) == Some(t[i].1) {
      var p := if i == 0 then "/" else if i == 1 then "-" else if i == 2 then ""
               else if i == 3 then "--" else if i == 4 then "//" else "/--/-/-//";
      assert AllPrefixes(p) && NoSeparators("arg");
      assert t[i].0 == p + "arg" + "" by { }
      ArgNameOfSpelledToken(p, "arg", "");
    }
  }

  lemma ArgNameKeepsLaterPrefixExamples()
    ensures forall i :: 0 <= i < |LaterPrefixSpellings| ==>
              ArgName(LaterPrefixSpellings[i].0) == Some(LaterPrefixSpellings[i].1)
  {
    var t := LaterPrefixSpellings;
    forall i | 0 <= i < |t| ensures ArgName(t[i].0) == Some(t[i].1) {
      var p := if i == 3 then "//" else "/";
      assert AllPrefixes(p) && NoSeparators(t[i].1) && t[i].1[0] == 'a';
      assert t[i].0 == p + t[i].1 + "" by { }
      ArgNameOfSpelledToken(p, t[i].1, "");
    }
  }

  lemma ArgNameEqualsExamples()
    ensures forall i :: 0 <= i < |EqualsSpellings| ==>
              ArgName(EqualsSpellings[i].0) == Some(EqualsSpellings[i].1)
  {
    var t := EqualsSpellings;
    forall i | 0 <= i < |t| ensures ArgName(t[i].0) == Some(t[i].1) {
      var p, tail := if i == 0 then "/" else "--", "=value";
      assert NoSeparators(tail[1..]) by { assert tail[1..] == "value"; }
      assert NoSeparators("option") && AllPrefixes(p);
      assert t[i].0 == p + "option" + tail by { }
      ArgNameOfSpelledToken(p, "option", tail);
    }
  }

  lemma ArgNameColonExamples()
    ensures forall i :: 0 <= i < |ColonSpellings| ==>
              ArgName(ColonSpellings[i].0) == Some(ColonSpellings[i].1)
  {
    var t := ColonSpellings;
    forall i | 0 <= i < |t| ensures ArgName(t[i].0) == Some(t[i].1) {
      var p, tail := if i == 0 then "/" else "--", ":value";
      assert NoSeparators(tail[1..]) by { assert tail[1..] == "value"; }
      assert NoSeparators("option") && AllPrefixes(p);
      assert t[i].0 == p + "option" + tail by { }
      ArgNameOfSpelledToken(p, "option", tail);
    }
  }

  /** A separator does not end the leading run: on "=-x" the cut point is
      negative and GetArgName throws. */
  lemma ArgNameThrowsExample()
    ensures ArgName("=-x") == None
  {
    var bad := "=-x";
    assert FirstOrdinary(bad[2..]) == 0;
    assert FirstOrdinary(bad[1..]) == 1;
    assert FirstOrdinary(bad) == 2;
    assert bad[..2][..1] == "=";
    assert PrefixCount(bad[..2]) == 1;
    assert bad[..2] == "=-";
    LastSeparatorAfter("", '=', "-x");
    assert bad == "" + ['='] + "-x";
    ArgNameIsReference(bad);
  }

  /** The name cuts at the last separator but the value starts after the first:
      "/a=b=c" has the name "a=b" and the value "b=c". */
  lemma NameAndValueCutDifferently()
    ensures ArgName("/a=b=c") == Some("a=b")
    ensures ExtractValueFromArg("/a=b=c") == Some("b=c")
  {
    var arg := "/a=b=c";
    assert FirstOrdinary(arg[1..]) == 0;
    assert FirstOrdinary(arg) == 1;
    assert NoSeparators(arg[..1]);
    ArgNameStripsLeadingRun(arg);
    LastSeparatorAfter("/a=b", '=', "c");
    assert arg == "/a=b" + ['='] + "c";
    assert arg[1..4] == "a=b";
    assert IndexOfSeparator(arg) == 2;
    assert arg[3..] == "b=c";
  }

  // ---------------------------------------------------------------------------
  // SplitCommandLine
  // ---------------------------------------------------------------------------

  /** The variables of SplitCommandLine's loop: the tokens found so far, the
      token being built, and whether a double or a single quoted span is open. */
  datatype Splitter = Splitter(parts: seq<string>, buffer: string, inDouble: bool, inSingle: bool)

  const SplitStart := Splitter([], "", false, false)

  predicate IsQuote(c: char) { c == '"' || c == '\'' }

  predicate NonBlankTokens(parts: seq<string>) {
    forall k :: 0 <= k < |parts| ==> !IsBlank(parts[k])
  }

  /** At most one kind of quoted span is open at a time. */
  predicate OneSpan(st: Splitter) { !(st.inDouble && st.inSingle) }

  /** The tokens after the buffer is closed: it becomes a token unless it is
      empty or white space only. */
  function Flush(parts: seq<string>, buffer: string): (r: seq<string>)
    ensures r == parts || r == parts + [buffer]
    ensures NonBlankTokens(parts) ==> NonBlankTokens(r)
    ensures |r| == |parts| <==> IsBlank(buffer)
  {
    if IsBlank(buffer) then parts else parts + [buffer]
  }

  /** One iteration of SplitCommandLine's loop on character `c`. */
  function SplitChar(st: Splitter, c: char): Splitter {
    if c == '\'' then
      if !st.inDouble then st.(inSingle := !st.inSingle) else st.(buffer := st.buffer + [c])
    else if c == '"' then
      if !st.inSingle then st.(inDouble := !st.inDouble) else st.(buffer := st.buffer + [c])
    else if c == ' ' then
      if !st.inDouble && !st.inSingle then Splitter(Flush(st.parts, st.buffer), "", false, false)
      else st.(buffer := st.buffer + [c])
    else st.(buffer := st.buffer + [c])
  }

  /** The loop variables after the loop has read `s`, starting from `st`.
      Tokens are only ever added, never blank, and the two kinds of span never
      nest. */
  function Run(st: Splitter, s: string): (r: Splitter)
    ensures st.parts <= r.parts
    ensures NonBlankTokens(st.parts) ==> NonBlankTokens(r.parts)
    ensures OneSpan(st) ==> OneSpan(r)
    decreases |s|
  {
    if s == [] then st else Run(SplitChar(st, s[0]), s[1..])
  }

  /** What SplitCommandLine returns: the tokens of the whole input, with the
      last buffer closed. */
  function Split(s: string): seq<string> {
    var st := Run(SplitStart, s);
    Flush(st.parts, st.buffer)
  }

  /** No token is empty or white space only. */
  lemma SplitNoBlankTokens(s: string)
    ensures forall k :: 0 <= k < |Split(s)| ==> !IsBlank(Split(s)[k])
  {
    assert NonBlankTokens(Run(SplitStart, s).parts);
  }

  /** SplitCommandLine as the source writes it: one pass over the characters
      that toggles the quote flags, collects characters in a buffer and closes
      the buffer at every space outside quotes. */
  method SplitCommandLine(args: string) returns (parts: seq<string>)
    ensures parts == Split(args)
  {
    parts := [];
    var buffer := "";
    var inDouble, inSingle := false, false;
    var i := 0;
    while i < |args|
      invariant 0 <= i <= |args|
      invariant Run(Splitter(parts, buffer, inDouble, inSingle), args[i..]) == Run(SplitStart, args)
    {
      assert args[i..][1..] == args[i + 1..];
      var c := args[i];
      if c == '\'' {
        if !inDouble {
          inSingle := !inSingle;
        } else {
          buffer := buffer + [c];
        }
      } else if c == '"' {
        if !inSingle {
          inDouble := !inDouble;
        } else {
          buffer := buffer + [c];
        }
      } else if c == ' ' {
        if !inDouble && !inSingle {
          if !IsBlank(buffer) {
            parts := parts + [buffer];
          }
          buffer := "";
        } else {
          buffer := buffer + [c];
        }
      } else {
        buffer := buffer + [c];
      }
      i := i + 1;
    }
    if !IsBlank(buffer) {
      parts := parts + [buffer];
    }
  }

  /** Reading `a` and then `b` is reading `a + b`. */
  lemma {:induction false} RunConcat(st: Splitter, a: string, b: string)
    ensures Run(st, a + b) == Run(Run(st, a), b)
    decreases |a|
  {
    if a != [] {
      assert (a + b)[0] == a[0] && (a + b)[1..] == a[1..] + b;
      RunConcat(SplitChar(st, a[0]), a[1..], b);
    } else {
      assert a + b == b;
    }
  }

  // An independent description of quote-free input: the pieces between single
  // spaces (`string.Split(' ')`), without the blank ones.

  /** Index of the first space in `s`, or `|s|`. */
  function FirstSpace(s: string): (r: nat)
    ensures r <= |s|
    ensures r < |s| ==> s[r] == ' '
    ensures forall k :: 0 <= k < r ==> s[k] != ' '
  {
    if s == [] || s[0] == ' ' then 0
    else
      var r := 1 + FirstSpace(s[1..]);
      assert forall k :: 1 <= k < |s| ==> s[k] == s[1..][k - 1];
      r
  }

  /** The pieces of `s` between single spaces; two adjacent spaces give an
      empty piece. */
  function Pieces(s: string): (r: seq<string>)
    ensures |r| >= 1
    decreases |s|
  {
    var k := FirstSpace(s);
    if k == |s| then [s] else [s[..k]] + Pieces(s[k + 1..])
  }

  /** The pieces that are neither empty nor white space only, in order. */
  function NonBlank(ps: seq<string>): (r: seq<string>)
    ensures NonBlankTokens(r)
  {
    if ps == [] then [] else Flush([], ps[0]) + NonBlank(ps[1..])
  }

  predicate NoSpaces(s: string) { forall k :: 0 <= k < |s| ==> s[k] != ' ' }

  predicate NoQuotes(s: string) { forall k :: 0 <= k < |s| ==> !IsQuote(s[k]) }

  /** A space-free string is one piece. */
  lemma PiecesOfWord(b: string)
    requires NoSpaces(b)
    ensures NonBlank(Pieces(b)) == Flush([], b)
  {
    assert FirstSpace(b) == |b|;
    assert NonBlank([b]) == Flush([], b) + NonBlank([]);
  }

  /** A space ends the first piece. */
  lemma PiecesAfterSpace(b: string, r: string)
    requires NoSpaces(b)
    ensures NonBlank(Pieces(b + [' '] + r)) == Flush([], b) + NonBlank(Pieces(r))
  {
    var s := b + [' '] + r;
    assert s[|b|] == ' ';
    assert FirstSpace(s) == |b|;
    assert s[..|b|] == b && s[|b| + 1..] == r;
    var ps := [b] + Pieces(r);
    assert ps[0] == b && ps[1..] == Pieces(r);
  }

  /** What reading quote-free `s` from outside quotes with `buffer` yields,
      once the last buffer is closed. */
  function UnquotedResult(parts: seq<string>, buffer: string, s: string): seq<string> {
    var r := Run(Splitter(parts, buffer, false, false), s);
    Flush(r.parts, r.buffer)
  }

  /** The step of RunUnquoted at a space: the buffer is closed as a token. */
  lemma UnquotedSpaceStep(parts: seq<string>, buffer: string, s: string)
    requires s != [] && s[0] == ' ' && NoSpaces(buffer)
    requires UnquotedResult(Flush(parts, buffer), "", s[1..])
             == Flush(parts, buffer) + NonBlank(Pieces(s[1..]))
    ensures UnquotedResult(parts, buffer, s) == parts + NonBlank(Pieces(buffer + s))
  {
    var rest := NonBlank(Pieces(s[1..]));
    assert Run(Splitter(parts, buffer, false, false), s)
           == Run(Splitter(Flush(parts, buffer), "", false, false), s[1..]);
    assert buffer + s == buffer + [' '] + s[1..];
    PiecesAfterSpace(buffer, s[1..]);
    FlushAppend(parts, buffer, rest);
  }

  lemma FlushAppend(parts: seq<string>, buffer: string, rest: seq<string>)
    ensures Flush(parts, buffer) + rest == parts + (Flush([], buffer) + rest)
  {
    if IsBlank(buffer) {
      assert Flush([], buffer) + rest == rest;
    } else {
      assert Flush(parts, buffer) == parts + [buffer];
      assert Flush([], buffer) == [buffer];
      assert (parts + [buffer]) + rest == parts + ([buffer] + rest);
    }
  }

  /** The step of RunUnquoted at any other character: it joins the buffer. */
  lemma UnquotedCharStep(parts: seq<string>, buffer: string, s: string)
    requires s != [] && !IsQuote(s[0]) && s[0] != ' '
    requires UnquotedResult(parts, buffer + [s[0]], s[1..])
             == parts + NonBlank(Pieces(buffer + [s[0]] + s[1..]))
    ensures UnquotedResult(parts, buffer, s) == parts + NonBlank(Pieces(buffer + s))
  {
    UnquotedRunChar(parts, buffer, s);
    ConsTail(buffer, s);
  }

  /** Outside quotes, any other character moves into the buffer. */
  lemma UnquotedRunChar(parts: seq<string>, buffer: string, s: string)
    requires s != [] && !IsQuote(s[0]) && s[0] != ' '
    ensures UnquotedResult(parts, buffer, s) == UnquotedResult(parts, buffer + [s[0]], s[1..])
  {
    var st := Splitter(parts, buffer, false, false);
    assert SplitChar(st, s[0]) == Splitter(parts, buffer + [s[0]], false, false);
  }

  lemma ConsTail(buffer: string, s: string)
    requires s != []
    ensures buffer + [s[0]] + s[1..] == buffer + s
  {
  }

  /** The generalisation behind SplitUnquoted: outside quotes, with a buffer
      that holds no space, the rest of a quote-free input adds the non-blank
      pieces of buffer and input. */
  lemma {:induction false} RunUnquoted(parts: seq<string>, buffer: string, s: string)
    requires NoQuotes(s) && NoSpaces(buffer)
    ensures UnquotedResult(parts, buffer, s) == parts + NonBlank(Pieces(buffer + s))
    decreases |s|
  {
    if s == [] {
      assert buffer + s == buffer;
      PiecesOfWord(buffer);
    } else if s[0] == ' ' {
      RunUnquoted(Flush(parts, buffer), "", s[1..]);
      assert "" + s[1..] == s[1..];
      UnquotedSpaceStep(parts, buffer, s);
    } else {
      assert !IsQuote(s[0]);
      RunUnquoted(parts, buffer + [s[0]], s[1..]);
      UnquotedCharStep(parts, buffer, s);
    }
  }

  /** Without quotes, SplitCommandLine returns the non-blank pieces between
      spaces: space runs collapse, and leading or trailing spaces add nothing. */
  lemma SplitUnquoted(s: string)
    requires NoQuotes(s)
    ensures Split(s) == NonBlank(Pieces(s))
  {
    RunUnquoted([], "", s);
    assert "" + s == s;
    assert Split(s) == UnquotedResult([], "", s);
  }

  /** Inside an open span every character but the span's own quote, spaces and
      the other quote kind included, goes into the token unchanged. */
  lemma {:induction false} RunInsideSpan(st: Splitter, w: string)
    requires st.inDouble != st.inSingle
    requires forall k :: 0 <= k < |w| ==> w[k] != (if st.inDouble then '"' else '\'')
    ensures Run(st, w) == st.(buffer := st.buffer + w)
    decreases |w|
  {
    if w != [] {
      var st' := st.(buffer := st.buffer + [w[0]]);
      assert SplitChar(st, w[0]) == st';
      RunInsideSpan(st', w[1..]);
      assert st.buffer + [w[0]] + w[1..] == st.buffer + w;
    }
  }

  /** A quoted span outside quotes: both quotes are dropped and the text in
      between joins the current token literally. */
  lemma QuotedSpanKeptLiterally(st: Splitter, q: char, w: string, rest: string)
    requires !st.inDouble && !st.inSingle && IsQuote(q)
    requires forall k :: 0 <= k < |w| ==> w[k] != q
    ensures Run(st, [q] + w + [q] + rest) == Run(st.(buffer := st.buffer + w), rest)
  {
    var open := SplitChar(st, q);
    RunInsideSpan(open, w);
    assert Run(st, [q]) == open;
    RunConcat(st, [q], w);
    RunConcat(st, [q] + w, [q]);
    RunConcat(st, [q] + w + [q], rest);
  }

  /** A quote that is never closed is no error: the rest of the input, spaces
      included, ends up in the last token. */
  lemma UnterminatedQuoteKeepsRest(s: string, q: char, w: string)
    requires var st := Run(SplitStart, s); !st.inDouble && !st.inSingle
    requires IsQuote(q)
    requires forall k :: 0 <= k < |w| ==> w[k] != q
    ensures var st := Run(SplitStart, s);
            Split(s + [q] + w) == Flush(st.parts, st.buffer + w)
  {
    var st := Run(SplitStart, s);
    RunConcat(SplitStart, s, [q]);
    RunConcat(SplitStart, s + [q], w);
    assert Run(st, [q]) == SplitChar(st, q);
    RunInsideSpan(SplitChar(st, q), w);
  }

  /** A space outside quotes before the input adds nothing. */
  lemma LeadingSpaceAddsNothing(s: string)
    ensures Split([' '] + s) == Split(s)
  {
    assert ([' '] + s)[1..] == s;
    assert SplitChar(SplitStart, ' ') == SplitStart;
  }

  /** A space outside quotes after the input adds nothing. */
  lemma TrailingSpaceAddsNothing(s: string)
    requires var st := Run(SplitStart, s); !st.inDouble && !st.inSingle
    ensures Split(s + [' ']) == Split(s)
  {
    RunConcat(SplitStart, s, [' ']);
    assert Run(Run(SplitStart, s), [' ']) == SplitChar(Run(SplitStart, s), ' ');
  }

  /** Outside quotes, two spaces split exactly as one does. */
  lemma SpaceRunsCollapse(a: string, b: string)
    requires var st := Run(SplitStart, a); !st.inDouble && !st.inSingle
    ensures Split(a + [' ', ' '] + b) == Split(a + [' '] + b)
  {
    var st := Run(SplitStart, a);
    var once := SplitChar(st, ' ');
    assert SplitChar(once, ' ') == once;
    RunConcat(SplitStart, a, [' ', ' '] + b);
    RunConcat(SplitStart, a, [' '] + b);
    assert ([' ', ' '] + b)[1..] == [' '] + b;
    assert ([' '] + b)[1..] == b;
    assert a + [' ', ' '] + b == a + ([' ', ' '] + b);
    assert a + [' '] + b == a + ([' '] + b);
  }

  // Words and spans as the tests of DotArgsTests/CommandLineHelperTests.cs
  // spell them.

  /** A token the splitter passes through unchanged: no quote, no space, not
      blank. */
  predicate PlainWord(w: string) { NoQuotes(w) && NoSpaces(w) && !IsBlank(w) }

  /** A name as a test spells it: not empty, no leading prefix character,
      no separator. */
  predicate GoodName(n: string) {
    n != [] && !IsPrefix(n[0]) && NoSeparators(n)
  }

  /** Words joined by single spaces: the `string.Join(" ", args)` that
      `Process(string[])` applies before splitting again. */
  function JoinWords(ws: seq<string>): string {
    if |ws| == 0 then ""
    else if |ws| == 1 then ws[0]
    else ws[0] + [' '] + JoinWords(ws[1..])
  }

  /** Characters that are neither quotes nor spaces join the buffer, whatever
      the quote state. */
  lemma {:induction false} RunPlain(st: Splitter, w: string)
    requires NoQuotes(w) && NoSpaces(w)
    ensures Run(st, w) == st.(buffer := st.buffer + w)
    decreases |w|
  {
    if w != [] {
      assert !IsQuote(w[0]);
      assert SplitChar(st, w[0]) == st.(buffer := st.buffer + [w[0]]);
      assert NoQuotes(w[1..]) && NoSpaces(w[1..]);
      RunPlain(st.(buffer := st.buffer + [w[0]]), w[1..]);
      assert st.buffer + [w[0]] + w[1..] == st.buffer + w;
    } else {
      assert st.buffer + w == st.buffer;
    }
  }

  /** After a word outside quotes, a space closes it as a token. */
  lemma WordThenSpace(parts: seq<string>, w: string, rest: string)
    requires PlainWord(w)
    ensures Run(Splitter(parts, "", false, false), w + [' '] + rest)
            == Run(Splitter(parts + [w], "", false, false), rest)
  {
    var st := Splitter(parts, "", false, false);
    RunConcat(st, w, [' '] + rest);
    RunPlain(st, w);
    assert "" + w == w;
    assert ([' '] + rest)[0] == ' ' && ([' '] + rest)[1..] == rest;
    assert w + [' '] + rest == w + ([' '] + rest);
  }

  lemma {:induction false} RunJoinWords(parts: seq<string>, ws: seq<string>)
    requires |ws| >= 1
    requires forall k :: 0 <= k < |ws| ==> PlainWord(ws[k])
    ensures Run(Splitter(parts, "", false, false), JoinWords(ws))
            == Splitter(parts + ws[..|ws| - 1], ws[|ws| - 1], false, false)
    decreases |ws|
  {
    if |ws| == 1 {
      RunPlain(Splitter(parts, "", false, false), ws[0]);
      assert "" + ws[0] == ws[0];
      assert parts + ws[..0] == parts;
    } else {
      var tail := ws[1..];
      assert JoinWords(ws) == ws[0] + [' '] + JoinWords(tail);
      WordThenSpace(parts, ws[0], JoinWords(tail));
      RunJoinWords(parts + [ws[0]], tail);
      ShiftFirst(parts, ws);
    }
  }

  /** Moving the first element onto the end of `parts`. */
  lemma ShiftFirst<T>(parts: seq<T>, ws: seq<T>)
    requires |ws| >= 2
    ensures parts + [ws[0]] + ws[1..][..|ws| - 2] == parts + ws[..|ws| - 1]
    ensures ws[1..][|ws| - 2] == ws[|ws| - 1]
  {
    assert ws[..|ws| - 1] == [ws[0]] + ws[1..][..|ws| - 2];
  }

  /** Splitting inverts joining: plain words joined by single spaces come back
      as the same words. */
  lemma SplitJoinWords(ws: seq<string>)
    requires forall k :: 0 <= k < |ws| ==> PlainWord(ws[k])
    ensures Split(JoinWords(ws)) == ws
  {
    if ws == [] {
      assert Split(JoinWords(ws)) == [] by {
        assert JoinWords(ws) == "";
        assert Run(SplitStart, "") == SplitStart;
      }
    } else {
      var n := |ws| - 1;
      RunJoinWords([], ws);
      assert [] + ws[..n] == ws[..n];
      assert !IsBlank(ws[n]) by { assert PlainWord(ws[n]); }
      SplitOfState(JoinWords(ws), ws[..n], ws[n]);
      LastSplitOff(ws);
    }
  }

  /** Split when the loop ends outside quotes with a non-blank buffer. */
  lemma SplitOfState(s: string, parts: seq<string>, buffer: string)
    requires Run(SplitStart, s) == Splitter(parts, buffer, false, false)
    requires !IsBlank(buffer)
    ensures Split(s) == parts + [buffer]
  {
  }

  lemma LastSplitOff<T>(xs: seq<T>)
    requires xs != []
    ensures xs[..|xs| - 1] + [xs[|xs| - 1]] == xs
  {
  }

  /** A word, a space and a quoted span give two tokens: the word and the
      span's text without its quotes. */
  lemma WordThenQuotedSpan(word: string, q: char, w: string)
    requires PlainWord(word) && IsQuote(q) && !IsBlank(w)
    requires forall k :: 0 <= k < |w| ==> w[k] != q
    ensures Split(word + [' ', q] + w + [q]) == [word, w]
  {
    var after := Splitter([word], "", false, false);
    var rest := [q] + w + [q] + "";
    assert word + [' ', q] + w + [q] == word + [' '] + rest;
    WordThenSpace([], word, rest);
    assert [] + [word] == [word];
    QuotedSpanKeptLiterally(after, q, w, "");
    assert "" + w == w;
    assert Run(SplitStart, word + [' '] + rest) == Splitter([word], w, false, false);
    assert Flush([word], w) == [word, w];
  }

  /** A word, a space and a span that is never closed give two tokens: the
      word and the rest of the input. */
  lemma WordThenOpenSpan(word: string, q: char, w: string)
    requires PlainWord(word) && IsQuote(q) && !IsBlank(w)
    requires forall k :: 0 <= k < |w| ==> w[k] != q
    ensures Split(word + [' ', q] + w) == [word, w]
  {
    WordThenSpace([], word, "");
    assert word + [' '] + "" == word + [' '];
    assert word + [' ', q] + w == word + [' '] + [q] + w;
    UnterminatedQuoteKeepsRest(word + [' '], q, w);
    assert "" + w == w;
  }

  /** The texts that SplitCommandLineTest quotes after `this `: each holds
      the other kind of quote. */
  const DoubleQuotedTexts: seq<string> := ["is a test", "is 'a' test"]
  const SingleQuotedTexts: seq<string> := ["is a test", "is \"a\" test"]

  /** The double-quoted inputs of SplitCommandLineTest: `this` and the quoted
      text, without its quotes and with its spaces. */
  lemma SplitDoubleQuotedExamples()
    ensures forall w :: w in DoubleQuotedTexts ==> Split("this \"" + w + "\"") == ["this", w]
  {
    forall w | w in DoubleQuotedTexts ensures Split("this \"" + w + "\"") == ["this", w] {
      assert "this \"" == "this " + ['"'] && "\"" == ['"'];
      QuotedExample('"', w);
    }
  }

  /** The single-quoted inputs of SplitCommandLineTest. */
  lemma SplitSingleQuotedExamples()
    ensures forall w :: w in SingleQuotedTexts ==> Split("this '" + w + "'") == ["this", w]
  {
    forall w | w in SingleQuotedTexts ensures Split("this '" + w + "'") == ["this", w] {
      assert "this '" == "this " + ['\''] && "'" == ['\''];
      QuotedExample('\'', w);
    }
  }

  lemma QuotedExample(q: char, w: string)
    requires IsQuote(q) && w != [] && !IsWhiteSpace(w[0])
    requires forall k :: 0 <= k < |w| ==> w[k] != q
    ensures Split("this " + [q] + w + [q]) == ["this", w]
  {
    assert PlainWord("this") by { assert !IsWhiteSpace("this"[0]); }
    assert "this " + [q] + w + [q] == "this" + [' ', q] + w + [q];
    WordThenQuotedSpan("this", q, w);
  }

  /** The plain input of SplitCommandLineTest. */
  lemma SplitPlainExample()
    ensures Split("this is a test") == ["this", "is", "a", "test"]
  {
    var ws := ["this", "is", "a", "test"];
    forall k | 0 <= k < |ws| ensures PlainWord(ws[k]) {
      assert !IsWhiteSpace(ws[k][0]);
    }
    PlainExampleJoined();
    SplitJoinWords(ws);
  }

  lemma PlainExampleJoined()
    ensures JoinWords(["this", "is", "a", "test"]) == "this is a test"
  {
  }

  /** An unclosed quote keeps the rest of the line: "a 'b c" gives "a" and
      "b c". */
  lemma SplitOpenQuoteExample()
    ensures Split("a 'b c") == ["a", "b c"]
  {
    assert PlainWord("a") by { assert !IsWhiteSpace("a"[0]); }
    assert !IsBlank("b c") by { assert !IsWhiteSpace("b c"[0]); }
    assert "a 'b c" == "a" + [' ', '\''] + "b c" by { }
    WordThenOpenSpan("a", '\'', "b c");
  }

  /** Outside quotes with an empty buffer, a space changes nothing. */
  lemma SpaceOnEmptyBuffer(parts: seq<string>, rest: string)
    ensures Run(Splitter(parts, "", false, false), [' '] + rest)
            == Run(Splitter(parts, "", false, false), rest)
  {
    assert ([' '] + rest)[1..] == rest;
  }

  /** A run of `n` spaces. */
  function Spaces(n: nat): (r: string)
    ensures |r| == n
  {
    if n == 0 then "" else [' '] + Spaces(n - 1)
  }

  /** Outside quotes with an empty buffer, a plain word and a run of spaces
      add exactly that word. */
  lemma WordThenSpaces(parts: seq<string>, w: string, n: nat, rest: string)
    requires PlainWord(w) && n >= 1
    ensures Run(Splitter(parts, "", false, false), w + Spaces(n) + rest)
            == Run(Splitter(parts + [w], "", false, false), rest)
  {
    assert w + Spaces(n) + rest == w + [' '] + (Spaces(n - 1) + rest);
    WordThenSpace(parts, w, Spaces(n - 1) + rest);
    SpacesOnEmptyBuffer(parts + [w], n - 1, rest);
  }

  lemma {:induction false} SpacesOnEmptyBuffer(parts: seq<string>, n: nat, rest: string)
    ensures Run(Splitter(parts, "", false, false), Spaces(n) + rest)
            == Run(Splitter(parts, "", false, false), rest)
  {
    if n > 0 {
      assert Spaces(n) + rest == [' '] + (Spaces(n - 1) + rest);
      SpaceOnEmptyBuffer(parts, Spaces(n - 1) + rest);
      SpacesOnEmptyBuffer(parts, n - 1, rest);
    } else {
      assert Spaces(n) + rest == rest;
    }
  }

  /** Each word followed by its own run of spaces. */
  function SpacedWords(ws: seq<string>, gaps: seq<nat>): string
    requires |gaps| == |ws|
  {
    if ws == [] then "" else ws[0] + Spaces(gaps[0]) + SpacedWords(ws[1..], gaps[1..])
  }

  lemma {:induction false} RunSpacedWords(parts: seq<string>, ws: seq<string>, gaps: seq<nat>)
    requires |gaps| == |ws|
    requires forall k :: 0 <= k < |ws| ==> PlainWord(ws[k]) && gaps[k] >= 1
    ensures Run(Splitter(parts, "", false, false), SpacedWords(ws, gaps))
            == Splitter(parts + ws, "", false, false)
    decreases |ws|
  {
    if ws == [] {
      assert parts + ws == parts;
    } else {
      var rest := SpacedWords(ws[1..], gaps[1..]);
      WordThenSpaces(parts, ws[0], gaps[0], rest);
      RunSpacedWords(parts + [ws[0]], ws[1..], gaps[1..]);
      assert parts + [ws[0]] + ws[1..] == parts + ws;
    }
  }

  /** Words each followed by one or more spaces split into exactly those
      words: runs of spaces collapse and trailing spaces add no token. */
  lemma SplitSpacedWords(ws: seq<string>, gaps: seq<nat>)
    requires |gaps| == |ws|
    requires forall k :: 0 <= k < |ws| ==> PlainWord(ws[k]) && gaps[k] >= 1
    ensures Split(SpacedWords(ws, gaps)) == ws
  {
    RunSpacedWords([], ws, gaps);
    assert [] + ws == ws;
  }

  /** The input of SplitCommandLineTest with doubled and trailing spaces. */
  const SpacedInputs: seq<(string, seq<string>)> :=
    [("this  is    a  test ", ["this", "is", "a", "test"])]

  lemma SplitSpacedExample()
    ensures forall i :: 0 <= i < |SpacedInputs| ==> Split(SpacedInputs[i].0) == SpacedInputs[i].1
  {
    var t := SpacedInputs;
    forall i | 0 <= i < |t| ensures Split(t[i].0) == t[i].1 {
      var ws, gaps := t[i].1, [2, 4, 2, 1];
      assert t[i].0 == SpacedWords(ws, gaps) by { SpacedInputLayout(); }
      assert forall k :: 0 <= k < |ws| ==> PlainWord(ws[k]) && gaps[k] >= 1 by { SpacedInputWords(); }
      SplitSpacedWords(ws, gaps);
    }
  }

  lemma SpacedInputLayout()
    ensures SpacedInputs[0].0 == SpacedWords(SpacedInputs[0].1, [2, 4, 2, 1])
  {
  }

  lemma SpacedInputWords()
    ensures forall k :: 0 <= k < |SpacedInputs[0].1| ==> PlainWord(SpacedInputs[0].1[k])
  {
    var ws := SpacedInputs[0].1;
    forall k | 0 <= k < |ws| ensures PlainWord(ws[k]) {
      assert !IsWhiteSpace(ws[k][0]);
    }
  }
}
