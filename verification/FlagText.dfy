/** Flag files: printing all flags as text, and reading such text back into a registry. */
module FlagText {
  import opened Basics
  import opened FlagValues
  import opened CommandLineFlags

  type View = map<string, FlagState>

  /** The part of the outside world that reading consults: whether a glob pattern matches the program's name, and
      the assignments found, in order, in the files or variables named by the value of a recursive flag. */
  datatype Env = Env(matches: string -> bool, nested: (string, string) -> seq<(string, string)>)

  function TypesOf(view: View): (types: map<string, FlagType>)
    ensures types.Keys == view.Keys
  {
    map n | n in view :: view[n].flagType
  }

  lemma TypesAgree(registry: FlagRegistry)
    ensures registry.Types() == TypesOf(registry.View())
  {
  }

  /** The same names with the same types and validators. */
  ghost predicate SameFlags(a: View, b: View) {
    && a.Keys == b.Keys
    && forall n <- a :: a[n].flagType == b[n].flagType && a[n].validator == b[n].validator
  }

  // ----- Splitting an argument into flag and value -----

  /** The first position of `c` in `s`, or |s|. */
  function IndexOf(s: string, c: char): (i: nat)
    ensures i <= |s| && forall j :: 0 <= j < i ==> s[j] != c
    ensures i < |s| ==> s[i] == c
  {
    if s == [] || s[0] == c then 0 else IndexOf(s[1..], c) + 1
  }

  /** What the C string functions see of `s`. */
  function CString(s: string): (r: string)
    ensures '\0' !in r && r <= s && (r == s || s[|r|] == '\0')
    ensures '\0' !in s ==> r == s
  {
    s[..IndexOf(s, '\0')]
  }

  datatype Split = Unknown(key: string) | Found(name: string, value: Option<string>)

  /** "name" or "name=value"; "noname" means false for a boolean flag unless there is a flag of that very name. */
  function SplitArgument(types: map<string, FlagType>, arg: string): (r: Split)
    ensures r.Found? ==> r.name in types
    ensures r.Found? && r.value == None ==> types[r.name] != BoolFlag
  {
    var eq := IndexOf(arg, '=');
    var key := arg[..eq];
    var value := if eq < |arg| then Some(arg[eq + 1..]) else None;
    if key in types then
      Found(key, if value == None && types[key] == BoolFlag then Some("1") else value)
    else if "no" <= key && key[2..] in types && types[key[2..]] == BoolFlag then
      Found(key[2..], Some("0"))
    else
      Unknown(key)
  }

  /** How an argument is written: a key alone, or a key and a value behind the first equals sign. */
  function Written(key: string, value: Option<string>): string {
    if value.None? then key else key + "=" + value.value
  }

  /** Every argument is written in some way, and, as the next lemma says, in only one. */
  lemma WrittenSomehow(arg: string) returns (key: string, value: Option<string>)
    ensures '=' !in key && arg == Written(key, value)
  {
    var eq := IndexOf(arg, '=');
    key := arg[..eq];
    value := None;
    if eq < |arg| {
      value := Some(arg[eq + 1..]);
      assert arg == arg[..eq] + "=" + arg[eq + 1..];
    }
  }

  lemma WrittenSplits(key: string, value: Option<string>)
    requires '=' !in key
    ensures var arg := Written(key, value); var eq := IndexOf(arg, '=');
            eq == |key| && key == arg[..eq] && value == if eq < |arg| then Some(arg[eq + 1..]) else None
  {
    var arg := Written(key, value);
    assert forall j :: 0 <= j < |key| ==> arg[j] == key[j] && key[j] in key;
    if value.Some? {
      assert arg[|key|] == '=' && arg[..|key|] == key && arg[|key| + 1..] == value.value;
      IndexIs(arg, '=', |key|);
    } else {
      IndexIsEnd(arg, '=');
    }
  }

  lemma {:induction false} IndexIsEnd(s: string, c: char)
    requires c !in s
    ensures IndexOf(s, c) == |s|
    decreases |s|
  {
    if s != "" { IndexIsEnd(s[1..], c); }
  }

  /** Whatever argument is written: a registered key keeps its value, and a boolean flag without one is switched on;
      otherwise "no" in front of a boolean flag switches it off, whatever value is written behind it. */
  lemma SplitsAsWritten(types: map<string, FlagType>, key: string, value: Option<string>)
    requires '=' !in key
    ensures key in types ==>
              SplitArgument(types, Written(key, value))
                == Found(key, if value.None? && types[key] == BoolFlag then Some("1") else value)
    ensures forall name :: key !in types && key == "no" + name && name in types && types[name] == BoolFlag ==>
              SplitArgument(types, Written(key, value)) == Found(name, Some("0"))
    ensures key !in types && !(exists name :: key == "no" + name && name in types && types[name] == BoolFlag) ==>
              SplitArgument(types, Written(key, value)) == Unknown(key)
  {
    WrittenSplits(key, value);
    hide IndexOf, Written;
    if "no" <= key { assert key == "no" + key[2..]; }
    forall name | key == "no" + name ensures "no" <= key && key[2..] == name {}
  }

  // ----- Reading -----

  predicate IsRecursive(name: string) {
    name == "flagfile" || name == "fromenv" || name == "tryfromenv"
  }

  /** The registry while options are processed, with the names that errors were recorded for. */
  datatype ParserState = ParserState(view: View, errors: set<string>)

  /** Sets one flag; a failure is recorded under its name. */
  function SetOne(st: ParserState, name: string, text: string, mode: FlagSettingMode): (r: ParserState)
    ensures SameFlags(st.view, r.view)
  {
    if name !in st.view then st.(errors := st.errors + {name})
    else
      var (f, ok) := SetFlag(st.view[name], text, mode);
      ParserState(st.view[name := f], if ok then st.errors else st.errors + {name})
  }

  function SetAll(st: ParserState, assignments: seq<(string, string)>, mode: FlagSettingMode): (r: ParserState)
    ensures SameFlags(st.view, r.view)
    decreases |assignments|
  {
    if assignments == [] then st
    else SetAll(SetOne(st, assignments[0].0, assignments[0].1, mode), assignments[1..], mode)
  }

  /** What a recursive flag that was just set refers to; nothing for other flags and for the empty value. */
  function Nested(name: string, value: FlagValue, env: Env): seq<(string, string)> {
    if IsRecursive(name) && value.StringValue? && value.s != "" then env.nested(name, value.s) else []
  }

  /** Sets one flag and then, if that worked, whatever it refers to. */
  function ProcessSingleOption(st: ParserState, name: string, text: string, mode: FlagSettingMode, env: Env): (r: ParserState)
    requires name in st.view
    ensures SameFlags(st.view, r.view)
  {
    var st' := SetOne(st, name, text, mode);
    if SetFlag(st.view[name], text, mode).1 then SetAll(st', Nested(name, st'.view[name].current, env), mode) else st'
  }

  function AnyWordMatches(line: string, env: Env): bool {
    var i := IndexOf(line, ' ');
    env.matches(line[..i]) || (i < |line| && AnyWordMatches(line[i + 1..], env))
  }

  function StripDashes(line: string): string
    requires line != [] && line[0] == '-'
  {
    if |line| > 1 && line[1] == '-' then line[2..] else line[1..]
  }

  /** Reading text: the flags so far, whether the section being read applies to this program, and whether the
      last line belonged to a list of file name patterns. */
  datatype ReadState = ReadState(flags: ParserState, relevant: bool, inFilenames: bool)

  /** One line: a comment, a flag that applies if the section does, or a list of file name patterns. */
  function ProcessLine(st: ReadState, line: string, mode: FlagSettingMode, env: Env): (r: ReadState)
    ensures SameFlags(st.flags.view, r.flags.view)
  {
    if line == "" || line[0] == '#' then st
    else if line[0] == '-' then
      var split := SplitArgument(TypesOf(st.flags.view), StripDashes(line));
      st.(inFilenames := false,
          flags := if st.relevant && split.Found? && split.value.Some?
                   then ProcessSingleOption(st.flags, split.name, split.value.value, mode, env)
                   else st.flags)
    else
      var relevant := st.inFilenames && st.relevant;
      st.(relevant := relevant || AnyWordMatches(line, env), inFilenames := true)
  }

  function SpacesEnd(s: string): (i: nat)
    ensures i <= |s|
  {
    if s != [] && IsSpace(s[0]) then SpacesEnd(s[1..]) + 1 else 0
  }

  /** Reads lines until the text is used up. White space before a line, blank lines included, is skipped. */
  function ReadText(st: ReadState, text: string, mode: FlagSettingMode, env: Env): (r: ReadState)
    ensures SameFlags(st.flags.view, r.flags.view)
    decreases |text|
  {
    var rest := text[SpacesEnd(text)..];
    var end := IndexOf(rest, '\n');
    var st' := ProcessLine(st, rest[..end], mode, env);
    if end < |rest| then ReadText(st', rest[end + 1..], mode, env) else st'
  }

  // ----- Printing -----

  function PrintFlag(name: string, value: FlagValue): string {
    "--" + name + "=" + ToString(value)
  }

  function Print(flags: seq<(string, FlagValue)>): string {
    if flags == [] then "" else PrintFlag(flags[0].0, flags[0].1) + "\n" + Print(flags[1..])
  }

  /** Appends the lines of all flags, in the order in which they are listed. */
  method TheseCommandlineFlagsIntoString(flags: seq<(string, FlagValue)>) returns (text: string)
    ensures text == Print(flags)
  {
    hide ToString, Print;
    text := "";
    JoinNothing(Print(flags));
    for i := 0 to |flags|
      invariant text + Print(flags[i..]) == Print(flags)
    {
      PrintNext(text, flags, i);
      text := text + "--" + flags[i].0 + "=" + ToString(flags[i].1) + "\n";
    }
    PrintEnds(text, flags);
  }

  lemma JoinNothing(text: string)
    ensures "" + text == text
  {
  }

  lemma PrintNext(text: string, flags: seq<(string, FlagValue)>, i: nat)
    requires i < |flags|
    ensures text + Print(flags[i..]) == text + "--" + flags[i].0 + "=" + ToString(flags[i].1) + "\n" + Print(flags[i + 1..])
  {
    hide ToString;
    assert flags[i..][1..] == flags[i + 1..];
    JoinFive(text, flags[i].0, ToString(flags[i].1), Print(flags[i + 1..]));
  }

  lemma JoinFive(a: string, b: string, c: string, d: string)
    ensures a + ("--" + b + "=" + c + "\n" + d) == a + "--" + b + "=" + c + "\n" + d
  {
  }

  lemma PrintEnds(text: string, flags: seq<(string, FlagValue)>)
    ensures text + Print(flags[|flags|..]) == text
  {
  }

  predicate OneLine(s: string) {
    '\n' !in s && '\0' !in s
  }

  /** What can be printed so that it reads back: a flag of the registry with a plain name and a one-line value
      that does not set off further reading and that the validator accepts. */
  ghost predicate PrintableFlag(view: View, name: string, value: FlagValue) {
    && OneLine(name) && '=' !in name
    && value.InRange() && OneLine(ToString(value))
    && (IsRecursive(name) ==> value == StringValue(""))
    && name in view && view[name].flagType == value.Type() && view[name].Accepts(value)
  }

  ghost predicate Printable(view: View, flags: seq<(string, FlagValue)>) {
    forall i :: 0 <= i < |flags| ==> PrintableFlag(view, flags[i].0, flags[i].1)
  }

  /** The registry with the listed flags set to their listed values. */
  ghost function Assigned(view: View, flags: seq<(string, FlagValue)>): View
    requires forall i :: 0 <= i < |flags| ==> flags[i].0 in view
  {
    if flags == [] then view
    else Assigned(view[flags[0].0 := view[flags[0].0].(current := flags[0].1, modified := true)], flags[1..])
  }

  /** Reading back what was printed sets exactly the printed flags to exactly their printed values, without an error,
      and then goes on with whatever follows. */
  lemma {:induction false} ReadPrintedThen(st: ReadState, flags: seq<(string, FlagValue)>, rest: string, env: Env)
    requires Printable(st.flags.view, flags) && st.relevant
    ensures ReadText(st, Print(flags) + rest, SetFlagsValue, env)
         == ReadText(st.(flags := st.flags.(view := Assigned(st.flags.view, flags)),
                         inFilenames := st.inFilenames && flags == []), rest, SetFlagsValue, env)
    decreases |flags|
  {
    if flags == [] {
      assert Print(flags) + rest == rest;
    } else {
      var (name, value) := flags[0];
      var line, more := PrintFlag(name, value), Print(flags[1..]) + rest;
      PrintFirst(flags, rest);
      PrintStarts(name, value);
      PrintableNames(st.flags.view, flags);
      hide Print, PrintFlag, PrintableFlag, ReadText, ProcessLine, SameFlags;
      assert PrintableFlag(st.flags.view, name, value);
      ReadPrintedFlag(st, name, value, env);
      ReadOneLine(st, line, more, env);
      var st' := ProcessLine(st, line, SetFlagsValue, env);
      StillPrintable(st.flags.view, st'.flags.view, flags);
      ReadPrintedThen(st', flags[1..], rest, env);
    }
  }

  lemma PrintFirst(flags: seq<(string, FlagValue)>, rest: string)
    requires flags != []
    ensures Print(flags) + rest == PrintFlag(flags[0].0, flags[0].1) + "\n" + (Print(flags[1..]) + rest)
  {
    hide PrintFlag;
    JoinLine(PrintFlag(flags[0].0, flags[0].1), Print(flags[1..]), rest);
  }

  lemma JoinLine(line: string, more: string, rest: string)
    ensures line + "\n" + more + rest == line + "\n" + (more + rest)
  {
  }

  lemma PrintStarts(name: string, value: FlagValue)
    ensures PrintFlag(name, value) != "" && PrintFlag(name, value)[0] == '-'
  {
  }

  lemma PrintableNames(view: View, flags: seq<(string, FlagValue)>)
    requires Printable(view, flags)
    ensures forall i :: 0 <= i < |flags| ==> flags[i].0 in view
  {
    forall i | 0 <= i < |flags| ensures flags[i].0 in view {
      assert PrintableFlag(view, flags[i].0, flags[i].1);
    }
  }

  lemma ReadPrinted(st: ReadState, flags: seq<(string, FlagValue)>, env: Env)
    requires Printable(st.flags.view, flags) && st.relevant
    ensures ReadText(st, Print(flags), SetFlagsValue, env).flags
         == st.flags.(view := Assigned(st.flags.view, flags))
  {
    hide Print, Assigned;
    ReadPrintedThen(st, flags, "", env);
    assert Print(flags) + "" == Print(flags);
    ReadNothing(st.(flags := st.flags.(view := Assigned(st.flags.view, flags)),
                    inFilenames := st.inFilenames && flags == []), env);
  }

  lemma ReadOneLine(st: ReadState, line: string, rest: string, env: Env)
    requires '\n' !in line && line != "" && !IsSpace(line[0])
    ensures ReadText(st, line + "\n" + rest, SetFlagsValue, env)
         == ReadText(ProcessLine(st, line, SetFlagsValue, env), rest, SetFlagsValue, env)
  {
    hide ProcessLine;
    FirstLine(line, rest);
  }

  lemma ReadNothing(st: ReadState, env: Env)
    ensures ReadText(st, "", SetFlagsValue, env) == st
  {
  }

  lemma FirstLine(line: string, rest: string)
    requires '\n' !in line && line != [] && !IsSpace(line[0])
    ensures var text := line + "\n" + rest;
            SpacesEnd(text) == 0 && IndexOf(text, '\n') == |line| && text[..|line|] == line && text[|line| + 1..] == rest
  {
    var text := line + "\n" + rest;
    assert text[|line|] == '\n';
    assert forall i :: 0 <= i < |line| ==> text[i] == line[i] && line[i] in line;
    IndexIs(text, '\n', |line|);
  }

  lemma IndexIs(s: string, c: char, i: nat)
    requires i < |s| && s[i] == c && forall j :: 0 <= j < i ==> s[j] != c
    ensures IndexOf(s, c) == i
  {
  }

  lemma SplitPrinted(types: map<string, FlagType>, name: string, text: string)
    requires name in types && '=' !in name
    ensures SplitArgument(types, name + "=" + text) == Found(name, Some(text))
  {
    SplitsAsWritten(types, name, Some(text));
  }

  lemma SetPrinted(f: FlagState, value: FlagValue)
    requires value.InRange() && f.flagType == value.Type() && f.Accepts(value)
    ensures SetFlag(f, ToString(value), SetFlagsValue) == (f.(current := value, modified := true), true)
  {
    ParsePrinted(value);
  }

  lemma ReadPrintedFlag(st: ReadState, name: string, value: FlagValue, env: Env)
    requires PrintableFlag(st.flags.view, name, value) && st.relevant
    ensures OneLine(PrintFlag(name, value))
    ensures ProcessLine(st, PrintFlag(name, value), SetFlagsValue, env)
         == st.(inFilenames := false, flags := st.flags.(view :=
              st.flags.view[name := st.flags.view[name].(current := value, modified := true)]))
  {
    hide SplitArgument, ToString, SetFlag, ParseFrom;
    assert StripDashes(PrintFlag(name, value)) == name + "=" + ToString(value);
    SplitPrinted(TypesOf(st.flags.view), name, ToString(value));
    SetPrinted(st.flags.view[name], value);
  }

  /** Reads a whole text into a registry. */
  function ReadFlags(flags: ParserState, contents: string, mode: FlagSettingMode, env: Env): (r: ParserState)
    ensures SameFlags(flags.view, r.view)
  {
    ReadText(ReadState(flags, true, false), CString(contents), mode, env).flags
  }

  lemma {:induction false} PrintHasNoNul(view: View, flags: seq<(string, FlagValue)>)
    requires Printable(view, flags)
    ensures '\0' !in Print(flags)
    decreases |flags|
  {
    if flags != [] { PrintHasNoNul(view, flags[1..]); }
  }

  lemma {:induction false} AssignedAt(view: View, flags: seq<(string, FlagValue)>, n: string)
    requires forall i :: 0 <= i < |flags| ==> flags[i].0 in view
    requires forall i, j :: 0 <= i < j < |flags| ==> flags[i].0 != flags[j].0
    requires n in view
    ensures n in Assigned(view, flags)
    ensures (forall i :: 0 <= i < |flags| ==> flags[i].0 != n) ==> Assigned(view, flags)[n] == view[n]
    ensures forall i :: 0 <= i < |flags| && flags[i].0 == n ==>
              Assigned(view, flags)[n] == view[n].(current := flags[i].1, modified := true)
    decreases |flags|
  {
    if flags != [] {
      AssignedAt(view[flags[0].0 := view[flags[0].0].(current := flags[0].1, modified := true)], flags[1..], n);
    }
  }

  /** The listing of all flags of `src`, in whatever order they are sorted. */
  ghost predicate ListsAll(src: View, flags: seq<(string, FlagValue)>) {
    && (forall i :: 0 <= i < |flags| ==> flags[i].0 in src && flags[i].1 == src[flags[i].0].current)
    && (forall i, j :: 0 <= i < j < |flags| ==> flags[i].0 != flags[j].0)
    && (forall n <- src :: exists i :: 0 <= i < |flags| && flags[i].0 == n)
  }

  /** Printing all flags of `src` and reading the text into `dst`, which has the same flags in whatever state,
      gives each its printed value, marks it modified, and leaves default, type and validator alone. */
  lemma RoundTrip(src: View, flags: seq<(string, FlagValue)>, dst: View, env: Env)
    requires ListsAll(src, flags) && src.Keys == dst.Keys
    requires forall n <- src :: PrintableFlag(dst, n, src[n].current)
    ensures var r := ReadFlags(ParserState(dst, {}), Print(flags), SetFlagsValue, env);
            && r.errors == {}
            && forall n <- dst :: r.view[n] == dst[n].(current := src[n].current, modified := true)
  {
    hide Assigned, Print, ReadText;
    PrintHasNoNul(dst, flags);
    ReadPrinted(ReadState(ParserState(dst, {}), true, false), flags, env);
    forall n | n in dst ensures Assigned(dst, flags)[n] == dst[n].(current := src[n].current, modified := true) {
      AssignedAt(dst, flags, n);
      var i :| 0 <= i < |flags| && flags[i].0 == n;
    }
  }

  // ----- Sections -----

  /** A line that is a list of file name patterns. */
  predicate IsPatternLine(line: string) {
    OneLine(line) && line != "" && line[0] != '-' && line[0] != '#' && !IsSpace(line[0])
  }

  /** Flags of a section for other programs are skipped. */
  lemma {:induction false} ReadIrrelevant(st: ReadState, flags: seq<(string, FlagValue)>, rest: string, env: Env)
    requires !st.relevant && forall i :: 0 <= i < |flags| ==> OneLine(PrintFlag(flags[i].0, flags[i].1))
    ensures ReadText(st, Print(flags) + rest, SetFlagsValue, env)
         == ReadText(st.(inFilenames := st.inFilenames && flags == []), rest, SetFlagsValue, env)
    decreases |flags|
  {
    if flags == [] {
      assert Print(flags) + rest == rest;
    } else {
      var line, more := PrintFlag(flags[0].0, flags[0].1), Print(flags[1..]) + rest;
      PrintFirst(flags, rest);
      ReadOneLine(st, line, more, env);
      ReadIrrelevant(ProcessLine(st, line, SetFlagsValue, env), flags[1..], rest, env);
    }
  }

  /** A word of a line: blanks or nothing on both sides, and no blank inside. */
  ghost predicate IsWordOf(line: string, before: string, word: string, after: string) {
    && line == before + (word + after) && ' ' !in word
    && (before == "" || before[|before| - 1] == ' ') && (after == "" || after[0] == ' ')
  }

  lemma FirstWord(line: string)
    ensures var e := IndexOf(line, ' '); IsWordOf(line, "", line[..e], line[e..])
    ensures forall word, after :: IsWordOf(line, "", word, after) ==> word == line[..IndexOf(line, ' ')]
  {
    var e := IndexOf(line, ' ');
    assert line == "" + (line[..e] + line[e..]);
    forall word, after | IsWordOf(line, "", word, after) ensures word == line[..e] {
      assert line == word + after;
      if after == "" { IndexIsEnd(line, ' '); } else { IndexIs(line, ' ', |word|); }
    }
  }

  lemma WordBehind(front: string, rest: string, before: string, word: string, after: string)
    requires front != "" && front[|front| - 1] == ' ' && IsWordOf(rest, before, word, after)
    ensures IsWordOf(front + rest, front + before, word, after)
  {
    var tail := word + after;
    FrontJoins(front, before, tail);
    LastOf(front, before);
  }

  lemma FrontJoins(front: string, before: string, tail: string)
    ensures front + (before + tail) == front + before + tail
  {
  }

  lemma LastOf(a: string, b: string)
    requires a != "" && a[|a| - 1] == ' ' && (b == "" || b[|b| - 1] == ' ')
    ensures (a + b)[|a + b| - 1] == ' '
  {
  }

  lemma WordInRest(line: string, before: string, word: string, after: string)
    requires IsWordOf(line, before, word, after) && before != ""
    ensures IndexOf(line, ' ') < |before| <= |line|
    ensures IsWordOf(line[IndexOf(line, ' ') + 1..], before[IndexOf(line, ' ') + 1..], word, after)
  {
    hide IsWordOf, IndexOf;
    BlankInFront(line, before, word, after);
    WordCut(line, before, word, after, IndexOf(line, ' ') + 1);
  }

  lemma BlankInFront(line: string, before: string, word: string, after: string)
    requires IsWordOf(line, before, word, after) && before != ""
    ensures IndexOf(line, ' ') < |before| <= |line|
  {
    assert line[|before| - 1] == before[|before| - 1];
  }

  lemma WordCut(line: string, before: string, word: string, after: string, b: nat)
    requires IsWordOf(line, before, word, after) && b <= |before| <= |line|
    ensures IsWordOf(line[b..], before[b..], word, after)
  {
    RestSplits(before, word + after, b);
  }

  lemma RestSplits(before: string, tail: string, b: nat)
    requires b <= |before|
    ensures (before + tail)[b..] == before[b..] + tail
    ensures b < |before| ==> before[b..][|before[b..]| - 1] == before[|before| - 1]
  {
  }

  /** Some word of the line matches the program. */
  ghost predicate WordMatches(line: string, env: Env) {
    exists before, word, after :: IsWordOf(line, before, word, after) && env.matches(word)
  }

  lemma MatchInFront(line: string, env: Env)
    requires env.matches(line[..IndexOf(line, ' ')])
    ensures WordMatches(line, env)
  {
    hide IsWordOf, IndexOf;
    FirstWord(line);
  }

  lemma MatchInRest(line: string, env: Env)
    requires IndexOf(line, ' ') < |line| && WordMatches(line[IndexOf(line, ' ') + 1..], env)
    ensures WordMatches(line, env)
  {
    hide IsWordOf;
    var e := IndexOf(line, ' ');
    var front, rest := line[..e + 1], line[e + 1..];
    assert line == front + rest && front[|front| - 1] == ' ';
    hide IndexOf;
    var before, word, after :| IsWordOf(rest, before, word, after) && env.matches(word);
    WordBehind(front, rest, before, word, after);
  }

  lemma MatchBehind(line: string, env: Env)
    requires WordMatches(line, env) && !env.matches(line[..IndexOf(line, ' ')])
    ensures IndexOf(line, ' ') < |line| && WordMatches(line[IndexOf(line, ' ') + 1..], env)
  {
    hide IsWordOf, IndexOf;
    var before, word, after :| IsWordOf(line, before, word, after) && env.matches(word);
    FirstWord(line);
    assert before != "";
    WordInRest(line, before, word, after);
  }

  /** A list of patterns matches the program exactly if one of its words does. */
  lemma {:induction false} AnyWordIs(line: string, env: Env)
    ensures AnyWordMatches(line, env) <==> WordMatches(line, env)
    decreases |line|
  {
    hide WordMatches, IndexOf;
    var e := IndexOf(line, ' ');
    if env.matches(line[..e]) { MatchInFront(line, env); }
    if e < |line| {
      AnyWordIs(line[e + 1..], env);
      if WordMatches(line[e + 1..], env) { MatchInRest(line, env); }
    }
    if WordMatches(line, env) && !env.matches(line[..e]) { MatchBehind(line, env); }
  }

  /** Lists of patterns, one to a line. */
  function PatternLines(lines: seq<string>): string {
    if lines == [] then "" else lines[0] + "\n" + PatternLines(lines[1..])
  }

  ghost predicate Matched(lines: seq<string>, env: Env) {
    exists i :: 0 <= i < |lines| && AnyWordMatches(lines[i], env)
  }

  /** Lists of patterns start a section, or go on starting it; it applies exactly if one of them matches. */
  lemma {:induction false} ReadPatterns(st: ReadState, lines: seq<string>, rest: string, env: Env)
    requires forall i :: 0 <= i < |lines| ==> IsPatternLine(lines[i])
    ensures lines == [] || ReadText(st, PatternLines(lines) + rest, SetFlagsValue, env)
         == ReadText(st.(relevant := (st.inFilenames && st.relevant) || Matched(lines, env), inFilenames := true), rest,
                     SetFlagsValue, env)
    decreases |lines|
  {
    hide AnyWordMatches, Matched, ReadText, ProcessLine, IsPatternLine;
    if lines != [] {
      var more := PatternLines(lines[1..]) + rest;
      assert PatternLines(lines) + rest == lines[0] + "\n" + more;
      ProcessPatterns(st, lines[0], env);
      ReadOneLine(st, lines[0], more, env);
      var st' := ProcessLine(st, lines[0], SetFlagsValue, env);
      MatchedFirst(lines, env);
      if |lines| > 1 { ReadPatterns(st', lines[1..], rest, env); } else { assert PatternLines(lines[1..]) + rest == rest; }
    }
  }

  lemma ProcessPatterns(st: ReadState, line: string, env: Env)
    requires IsPatternLine(line)
    ensures '\n' !in line && line != "" && !IsSpace(line[0])
    ensures ProcessLine(st, line, SetFlagsValue, env)
         == st.(relevant := (st.inFilenames && st.relevant) || AnyWordMatches(line, env), inFilenames := true)
  {
    hide AnyWordMatches;
  }

  lemma MatchedFirst(lines: seq<string>, env: Env)
    requires lines != []
    ensures Matched(lines, env) <==> AnyWordMatches(lines[0], env) || Matched(lines[1..], env)
    ensures !Matched([], env)
  {
    if Matched(lines[1..], env) {
      var i :| 0 <= i < |lines[1..]| && AnyWordMatches(lines[1..][i], env);
      assert AnyWordMatches(lines[i + 1], env);
    }
    if Matched(lines, env) && !AnyWordMatches(lines[0], env) {
      var i :| 0 <= i < |lines| && AnyWordMatches(lines[i], env);
      assert AnyWordMatches(lines[1..][i - 1], env);
    }
  }

  lemma PrintableOnOneLine(view: View, name: string, value: FlagValue)
    requires PrintableFlag(view, name, value)
    ensures OneLine(PrintFlag(name, value))
  {
  }

  /** A section of a flag file: for whom it is, and what it sets. */
  datatype Section = Section(patterns: seq<string>, flags: seq<(string, FlagValue)>)

  function SectionsText(sections: seq<Section>): string {
    if sections == [] then ""
    else PatternLines(sections[0].patterns) + (Print(sections[0].flags) + SectionsText(sections[1..]))
  }

  ghost predicate IsSection(view: View, s: Section) {
    && s.patterns != [] && (forall i :: 0 <= i < |s.patterns| ==> IsPatternLine(s.patterns[i]))
    && s.flags != [] && Printable(view, s.flags)
  }

  /** The registry after those sections that are for this program. */
  ghost function Applied(view: View, sections: seq<Section>, env: Env): View
    requires forall i :: 0 <= i < |sections| ==> IsSection(view, sections[i])
    decreases |sections|
  {
    if sections == [] then view
    else
      var s := sections[0];
      assert IsSection(view, s);
      PrintableNames(view, s.flags);
      AssignedSame(view, s.flags);
      StillSections(view, Assigned(view, s.flags), sections);
      Applied(if Matched(s.patterns, env) then Assigned(view, s.flags) else view, sections[1..], env)
  }

  lemma {:induction false} AssignedSame(view: View, flags: seq<(string, FlagValue)>)
    requires forall i :: 0 <= i < |flags| ==> flags[i].0 in view
    ensures SameFlags(view, Assigned(view, flags))
    decreases |flags|
  {
    if flags != [] {
      AssignedSame(view[flags[0].0 := view[flags[0].0].(current := flags[0].1, modified := true)], flags[1..]);
    }
  }

  lemma StillSections(view: View, view': View, sections: seq<Section>)
    requires SameFlags(view, view') && forall i :: 0 <= i < |sections| ==> IsSection(view, sections[i])
    ensures forall i :: 0 <= i < |sections| ==> IsSection(view', sections[i])
  {
    forall i | 0 <= i < |sections| ensures IsSection(view', sections[i]) {
      StillPrintable(view, view', sections[i].flags);
    }
  }

  lemma StillPrintable(view: View, view': View, flags: seq<(string, FlagValue)>)
    requires SameFlags(view, view') && Printable(view, flags)
    ensures Printable(view', flags)
  {
    forall i | 0 <= i < |flags| ensures PrintableFlag(view', flags[i].0, flags[i].1) {
      assert PrintableFlag(view, flags[i].0, flags[i].1);
    }
  }

  /** A flag file of several sections sets exactly what the sections for this program set, in order:
      whether a section applies depends on its own patterns only. */
  lemma {:induction false} SectionsApply(st: ReadState, sections: seq<Section>, env: Env)
    requires forall i :: 0 <= i < |sections| ==> IsSection(st.flags.view, sections[i])
    requires !st.inFilenames
    ensures ReadText(st, SectionsText(sections), SetFlagsValue, env).flags
         == st.flags.(view := Applied(st.flags.view, sections, env))
    decreases |sections|
  {
    hide PatternLines, Print, ReadText, Assigned, PrintableFlag, IsPatternLine, Matched, SameFlags;
    if sections == [] {
      ReadNothing(st, env);
    } else {
      var s, rest := sections[0], SectionsText(sections[1..]);
      PrintableNames(st.flags.view, s.flags);
      AssignedSame(st.flags.view, s.flags);
      StillSections(st.flags.view, Assigned(st.flags.view, s.flags), sections);
      ReadPatterns(st, s.patterns, Print(s.flags) + rest, env);
      var st1 := st.(relevant := Matched(s.patterns, env), inFilenames := true);
      if st1.relevant {
        ReadPrintedThen(st1, s.flags, rest, env);
        SectionsApply(st1.(flags := st.flags.(view := Assigned(st.flags.view, s.flags)), inFilenames := false), sections[1..], env);
      } else {
        forall i | 0 <= i < |s.flags| ensures OneLine(PrintFlag(s.flags[i].0, s.flags[i].1)) {
          PrintableOnOneLine(st.flags.view, s.flags[i].0, s.flags[i].1);
        }
        ReadIrrelevant(st1, s.flags, rest, env);
        SectionsApply(st1.(inFilenames := false), sections[1..], env);
      }
    }
  }

  lemma {:induction false} SectionsHaveNoNul(view: View, sections: seq<Section>)
    requires forall i :: 0 <= i < |sections| ==> IsSection(view, sections[i])
    ensures '\0' !in SectionsText(sections)
    decreases |sections|
  {
    hide Print, PatternLines, Printable, IsPatternLine;
    if sections != [] {
      PrintHasNoNul(view, sections[0].flags);
      PatternsHaveNoNul(sections[0].patterns);
      SectionsHaveNoNul(view, sections[1..]);
    }
  }

  lemma {:induction false} PatternsHaveNoNul(lines: seq<string>)
    requires forall i :: 0 <= i < |lines| ==> IsPatternLine(lines[i])
    ensures '\0' !in PatternLines(lines)
    decreases |lines|
  {
    if lines != [] { PatternsHaveNoNul(lines[1..]); }
  }

  /** The same for a whole text read from the start: no errors, and exactly those sections. */
  lemma SectionedTextApplies(view: View, sections: seq<Section>, env: Env)
    requires forall i :: 0 <= i < |sections| ==> IsSection(view, sections[i])
    ensures ReadFlags(ParserState(view, {}), SectionsText(sections), SetFlagsValue, env)
         == ParserState(Applied(view, sections, env), {})
  {
    hide SectionsText, Applied, IsSection;
    SectionsHaveNoNul(view, sections);
    SectionsApply(ReadState(ParserState(view, {}), true, false), sections, env);
  }

  // ----- White space and comments -----

  lemma {:induction false} SpacesFirst(spaces: string, text: string)
    requires forall i :: 0 <= i < |spaces| ==> IsSpace(spaces[i])
    ensures SpacesEnd(spaces + text) == |spaces| + SpacesEnd(text)
    decreases |spaces|
  {
    if spaces == "" {
      assert spaces + text == text;
    } else {
      assert (spaces + text)[1..] == spaces[1..] + text;
      SpacesFirst(spaces[1..], text);
    }
  }

  /** White space in front of a line does not matter, be it blanks, tabulators or whole blank lines. */
  lemma LeadingSpaces(st: ReadState, spaces: string, text: string, env: Env)
    requires forall i :: 0 <= i < |spaces| ==> spaces[i] == ' ' || 9 <= spaces[i] as int <= 13
    ensures ReadText(st, spaces + text, SetFlagsValue, env) == ReadText(st, text, SetFlagsValue, env)
  {
    hide ReadText;
    SkipSpacesIn(st, spaces, text, env);
  }

  lemma {:induction false} SpacesEndAt(s: string)
    ensures forall i :: 0 <= i < SpacesEnd(s) ==> IsSpace(s[i])
    ensures SpacesEnd(s) < |s| ==> !IsSpace(s[SpacesEnd(s)])
    decreases |s|
  {
    if s != "" { SpacesEndAt(s[1..]); }
  }

  predicate EndsLine(text: string) {
    text == "" || text[|text| - 1] == '\n'
  }

  /** Whole lines are read one after the other. */
  lemma {:induction false} ReadAppends(st: ReadState, text: string, rest: string, env: Env)
    requires EndsLine(text)
    ensures ReadText(st, text + rest, SetFlagsValue, env)
         == ReadText(ReadText(st, text, SetFlagsValue, env), rest, SetFlagsValue, env)
    decreases |text|
  {
    hide ProcessLine, ReadText, IsSpace;
    var k := SpacesEnd(text);
    SpacesEndAt(text);
    SkipToLine(st, text, env);
    if k == |text| {
      SpacesFirst(text, rest);
      SkipSpacesIn(st, text, rest, env);
      ReadNothing(st, env);
    } else {
      var line, more := FirstLineOf(text[k..]);
      SkipSpacesIn(st, text[..k], text[k..] + rest, env);
      assert text[..k] + (text[k..] + rest) == text + rest;
      assert line + "\n" + more + rest == line + "\n" + (more + rest);
      ReadOneLine(st, line, more + rest, env);
      ReadOneLine(st, line, more, env);
      ReadAppends(ProcessLine(st, line, SetFlagsValue, env), more, rest, env);
    }
  }

  lemma SkipSpacesIn(st: ReadState, spaces: string, text: string, env: Env)
    requires forall i :: 0 <= i < |spaces| ==> IsSpace(spaces[i])
    ensures ReadText(st, spaces + text, SetFlagsValue, env) == ReadText(st, text, SetFlagsValue, env)
  {
    hide ProcessLine;
    SpacesFirst(spaces, text);
    assert (spaces + text)[|spaces| + SpacesEnd(text)..] == text[SpacesEnd(text)..];
  }

  lemma SkipToLine(st: ReadState, text: string, env: Env)
    ensures ReadText(st, text, SetFlagsValue, env) == ReadText(st, text[SpacesEnd(text)..], SetFlagsValue, env)
  {
    SpacesEndAt(text);
    hide ReadText, SpacesEnd, IsSpace;
    var k := SpacesEnd(text);
    var spaces, rest := text[..k], text[k..];
    assert spaces + rest == text;
    SkipSpacesIn(st, spaces, rest, env);
  }

  lemma FirstLineOf(text: string) returns (line: string, more: string)
    requires text != "" && EndsLine(text) && !IsSpace(text[0])
    ensures text == line + "\n" + more && '\n' !in line && line != "" && line[0] == text[0] && EndsLine(more)
  {
    var e := IndexOf(text, '\n');
    assert text[|text| - 1] == '\n' && e < |text|;
    line, more := text[..e], text[e + 1..];
    assert text == text[..e] + [text[e]] + text[e + 1..];
  }

  /** A comment line, wherever it stands, does not change what is read. */
  lemma CommentsDoNotCount(st: ReadState, text: string, comment: string, rest: string, env: Env)
    requires EndsLine(text) && '\n' !in comment
    ensures ReadText(st, text + ("#" + comment + "\n" + rest), SetFlagsValue, env) == ReadText(st, text + rest, SetFlagsValue, env)
  {
    hide ReadText;
    var st1 := ReadText(st, text, SetFlagsValue, env);
    ReadAppends(st, text, "#" + comment + "\n" + rest, env);
    ReadAppends(st, text, rest, env);
    ReadOneLine(st1, "#" + comment, rest, env);
  }

  // ----- Errors and recursive flags -----

  lemma {:induction false} SetAllInOrder(st: ParserState, a: seq<(string, string)>, b: seq<(string, string)>, mode: FlagSettingMode)
    ensures SetAll(st, a + b, mode) == SetAll(SetAll(st, a, mode), b, mode)
    decreases |a|
  {
    if a == [] {
      assert a + b == b;
    } else {
      assert (a + b)[1..] == a[1..] + b;
      SetAllInOrder(SetOne(st, a[0].0, a[0].1, mode), a[1..], b, mode);
    }
  }

  /** Setting one of the three recursive flags sets off what its value refers to, and no other flag does. */
  lemma RecursiveFlagsLead(st: ParserState, name: string, text: string, env: Env)
    requires name in st.view && st.view[name].flagType == StringFlag && st.view[name].validator == None
    ensures ProcessSingleOption(st, name, text, SetFlagsValue, env)
         == if (name == "flagfile" || name == "fromenv" || name == "tryfromenv") && text != ""
            then SetAll(SetOne(st, name, text, SetFlagsValue), env.nested(name, text), SetFlagsValue)
            else SetOne(st, name, text, SetFlagsValue)
  {
    hide SetFlag;
    SetString(st.view[name], text);
  }

  lemma {:induction false} SetAllKeepsErrors(st: ParserState, assignments: seq<(string, string)>, mode: FlagSettingMode)
    ensures st.errors <= SetAll(st, assignments, mode).errors
    decreases |assignments|
  {
    if assignments != [] {
      SetAllKeepsErrors(SetOne(st, assignments[0].0, assignments[0].1, mode), assignments[1..], mode);
    }
  }

  lemma OptionKeepsErrors(st: ParserState, name: string, text: string, env: Env)
    requires name in st.view
    ensures st.errors <= ProcessSingleOption(st, name, text, SetFlagsValue, env).errors
  {
    hide SetFlag, SetAll;
    var st' := SetOne(st, name, text, SetFlagsValue);
    SetAllKeepsErrors(st', Nested(name, st'.view[name].current, env), SetFlagsValue);
  }

  lemma LineKeepsErrors(st: ReadState, line: string, env: Env)
    ensures st.flags.errors <= ProcessLine(st, line, SetFlagsValue, env).flags.errors
  {
    hide ProcessSingleOption, SplitArgument, AnyWordMatches;
    if line != "" && line[0] == '-' {
      var split := SplitArgument(TypesOf(st.flags.view), StripDashes(line));
      if split.Found? && split.value.Some? { OptionKeepsErrors(st.flags, split.name, split.value.value, env); }
    }
  }

  /** An error that was recorded stays. */
  lemma {:induction false} ReadKeepsErrors(st: ReadState, text: string, env: Env)
    ensures st.flags.errors <= ReadText(st, text, SetFlagsValue, env).flags.errors
    decreases |text|
  {
    hide ProcessLine;
    var rest := text[SpacesEnd(text)..];
    var end := IndexOf(rest, '\n');
    LineKeepsErrors(st, rest[..end], env);
    if end < |rest| { ReadKeepsErrors(ProcessLine(st, rest[..end], SetFlagsValue, env), rest[end + 1..], env); }
  }

  /** One value that is not legal for its flag, in a section that applies, makes the whole text fail, wherever it stands. */
  lemma IllegalValueFails(st: ReadState, text: string, name: string, value: string, rest: string, env: Env)
    requires EndsLine(text) && OneLine(name) && '\n' !in value && '=' !in name && name in st.flags.view
    requires st.flags.view[name].TryParse(value) == None && ReadText(st, text, SetFlagsValue, env).relevant
    ensures name in ReadText(st, text + ("--" + name + "=" + value + "\n" + rest), SetFlagsValue, env).flags.errors
  {
    hide ReadText, SplitArgument, SetFlag, ProcessLine, SameFlags, FlagState.TryParse;
    var st1 := ReadText(st, text, SetFlagsValue, env);
    var line := "--" + name + "=" + value;
    ReadAppends(st, text, line + "\n" + rest, env);
    ReadOneLine(st1, line, rest, env);
    StillIllegal(st.flags.view, st1.flags.view, name, value);
    IllegalLine(st1, name, value, env);
    ReadKeepsErrors(ProcessLine(st1, line, SetFlagsValue, env), rest, env);
  }

  lemma StillIllegal(a: View, b: View, name: string, value: string)
    requires SameFlags(a, b) && name in a && a[name].TryParse(value) == None
    ensures name in b && b[name].TryParse(value) == None
  {
  }

  lemma IllegalLine(st: ReadState, name: string, value: string, env: Env)
    requires st.relevant && name in st.flags.view && '=' !in name && st.flags.view[name].TryParse(value) == None
    ensures name in ProcessLine(st, "--" + name + "=" + value, SetFlagsValue, env).flags.errors
  {
    hide SplitArgument, SetFlag, FlagState.TryParse;
    assert StripDashes("--" + name + "=" + value) == name + "=" + value;
    SplitPrinted(TypesOf(st.flags.view), name, value);
    IllegalIsRefused(st.flags.view[name], value);
  }

  lemma IllegalIsRefused(f: FlagState, value: string)
    requires f.TryParse(value) == None
    ensures !SetFlag(f, value, SetFlagsValue).1
  {
  }

  /** A line with an unknown flag, or with a flag that lacks its value, sets nothing and records nothing; it only ends
      the list of patterns in front of it. */
  lemma UnknownLineSkipped(st: ReadState, text: string, key: string, value: Option<string>, rest: string, env: Env)
    requires EndsLine(text) && '=' !in key && '\n' !in key && (value.Some? ==> '\n' !in value.value)
    requires if key in st.flags.view then value.None? && st.flags.view[key].flagType != BoolFlag
             else !exists name :: key == "no" + name && name in st.flags.view && st.flags.view[name].flagType == BoolFlag
    ensures ReadText(st, text + ("--" + Written(key, value) + "\n" + rest), SetFlagsValue, env)
         == ReadText(ReadText(st, text, SetFlagsValue, env).(inFilenames := false), rest, SetFlagsValue, env)
  {
    hide ReadText, SplitArgument;
    var st1 := ReadText(st, text, SetFlagsValue, env);
    var line := "--" + Written(key, value);
    ReadAppends(st, text, line + "\n" + rest, env);
    ReadOneLine(st1, line, rest, env);
    assert StripDashes(line) == Written(key, value);
    assert SameFlags(st.flags.view, st1.flags.view);
    SplitsAsWritten(TypesOf(st1.flags.view), key, value);
  }

  // ----- The line restriction is necessary -----

  predicate FitsOnLine(v: FlagValue) {
    v.StringValue? ==> OneLine(v.s)
  }

  /** Every new value fits on a line. */
  ghost predicate NewValuesFit(before: View, after: View) {
    forall n <- before :: n in after && (after[n].current == before[n].current || FitsOnLine(after[n].current))
  }

  /** What recursive flags lead to are values on one line each. Files hold no others; an environment variable may. */
  ghost predicate NestedOnOneLine(env: Env) {
    forall name, value, i :: 0 <= i < |env.nested(name, value)| ==> OneLine(env.nested(name, value)[i].1)
  }

  lemma SetValueFits(f: FlagState, text: string)
    requires OneLine(text)
    ensures var g := SetFlag(f, text, SetFlagsValue).0; g.current == f.current || FitsOnLine(g.current)
  {
  }

  lemma NewValuesFitTransitively(a: View, b: View, c: View)
    requires NewValuesFit(a, b) && NewValuesFit(b, c)
    ensures NewValuesFit(a, c)
  {
    forall n | n in a ensures n in c && (c[n].current == a[n].current || FitsOnLine(c[n].current)) {
      assert n in b;
    }
  }

  lemma NoNewValues(view: View)
    ensures NewValuesFit(view, view)
  {
  }

  lemma SetOneFits(st: ParserState, name: string, text: string)
    requires OneLine(text)
    ensures NewValuesFit(st.view, SetOne(st, name, text, SetFlagsValue).view)
  {
    hide SetFlag;
    if name in st.view { SetValueFits(st.view[name], text); }
  }

  lemma {:induction false} SetAllFits(st: ParserState, assignments: seq<(string, string)>)
    requires forall i :: 0 <= i < |assignments| ==> OneLine(assignments[i].1)
    ensures NewValuesFit(st.view, SetAll(st, assignments, SetFlagsValue).view)
    decreases |assignments|
  {
    hide SetOne, NewValuesFit, OneLine;
    if assignments == [] {
      NoNewValues(st.view);
    } else {
      var st' := SetOne(st, assignments[0].0, assignments[0].1, SetFlagsValue);
      SetOneFits(st, assignments[0].0, assignments[0].1);
      SetAllFits(st', assignments[1..]);
      NewValuesFitTransitively(st.view, st'.view, SetAll(st, assignments, SetFlagsValue).view);
    }
  }

  lemma SingleOptionFits(st: ParserState, name: string, text: string, env: Env)
    requires OneLine(text) && NestedOnOneLine(env) && name in st.view
    ensures NewValuesFit(st.view, ProcessSingleOption(st, name, text, SetFlagsValue, env).view)
  {
    hide NewValuesFit, SetFlag, SetOne, SetAll, OneLine;
    var st' := SetOne(st, name, text, SetFlagsValue);
    SetOneFits(st, name, text);
    if SetFlag(st.view[name], text, SetFlagsValue).1 {
      var nested := Nested(name, st'.view[name].current, env);
      SetAllFits(st', nested);
      NewValuesFitTransitively(st.view, st'.view, SetAll(st', nested, SetFlagsValue).view);
    }
  }

  lemma ValueOnOneLine(types: map<string, FlagType>, arg: string)
    requires OneLine(arg) && SplitArgument(types, arg).Found? && SplitArgument(types, arg).value.Some?
    ensures OneLine(SplitArgument(types, arg).value.value)
  {
  }

  lemma LineValuesFit(st: ReadState, line: string, env: Env)
    requires OneLine(line) && NestedOnOneLine(env)
    ensures NewValuesFit(st.flags.view, ProcessLine(st, line, SetFlagsValue, env).flags.view)
  {
    hide NewValuesFit, ProcessSingleOption, SplitArgument, AnyWordMatches;
    NoNewValues(st.flags.view);
    if line != "" && line[0] == '-' {
      var split := SplitArgument(TypesOf(st.flags.view), StripDashes(line));
      if split.Found? && split.value.Some? {
        ValueOnOneLine(TypesOf(st.flags.view), StripDashes(line));
        SingleOptionFits(st.flags, split.name, split.value.value, env);
      }
    }
  }

  /** Whatever text is read, no flag gets a value with a line break or a NUL from it. */
  lemma {:induction false} ReadValuesFit(st: ReadState, text: string, env: Env)
    requires '\0' !in text && NestedOnOneLine(env)
    ensures NewValuesFit(st.flags.view, ReadText(st, text, SetFlagsValue, env).flags.view)
    decreases |text|
  {
    hide ProcessLine, NewValuesFit, NestedOnOneLine;
    var rest := text[SpacesEnd(text)..];
    var end := IndexOf(rest, '\n');
    var st' := ProcessLine(st, rest[..end], SetFlagsValue, env);
    LineValuesFit(st, rest[..end], env);
    if end < |rest| {
      ReadValuesFit(st', rest[end + 1..], env);
      NewValuesFitTransitively(st.flags.view, st'.flags.view, ReadText(st, text, SetFlagsValue, env).flags.view);
    }
  }

  /** A string with a line break or a NUL is lost on the way, and only such a string is. */
  lemma RoundTripNeedsOneLine(view: View, name: string, s: string, env: Env)
    requires NestedOnOneLine(env) && !IsRecursive(name)
    requires name in view && OneLine(name) && '=' !in name
    requires view[name].flagType == StringFlag && view[name].Accepts(StringValue(s))
    requires view[name].current != StringValue(s)
    ensures ReadFlags(ParserState(view, {}), Print([(name, StringValue(s))]), SetFlagsValue, env).view[name].current
              == StringValue(s)
       <==> OneLine(s)
  {
    hide Assigned, Print, ReadText;
    var flags := [(name, StringValue(s))];
    var st := ReadState(ParserState(view, {}), true, false);
    ReadValuesFit(st, CString(Print(flags)), env);
    if OneLine(s) {
      assert PrintableFlag(view, name, StringValue(s));
      PrintHasNoNul(view, flags);
      ReadPrinted(st, flags, env);
      AssignedAt(view, flags, name);
      assert flags[0].0 == name;
    }
  }

  /** A flag that can be printed and read back, but for the contents of its value if that is a string. */
  ghost predicate ListableFlag(view: View, name: string, value: FlagValue) {
    && OneLine(name) && '=' !in name
    && (value.StringValue? || value.InRange())
    && (IsRecursive(name) ==> value == StringValue(""))
    && name in view && view[name].flagType == value.Type() && view[name].Accepts(value)
  }

  lemma ListableIsPrintable(view: View, name: string, value: FlagValue)
    requires ListableFlag(view, name, value) && FitsOnLine(value)
    ensures PrintableFlag(view, name, value)
  {
    if !value.StringValue? { PrintedOnOneLine(value); }
  }

  /** Printing all flags of `src` and reading the text into `dst` gives every flag the printed value if and only if all
      printed strings fit on a line. The flags of `dst` may be in any state, as long as those whose value does not fit
      on a line do not have that value already. */
  lemma RoundTripExactly(src: View, flags: seq<(string, FlagValue)>, dst: View, env: Env)
    requires ListsAll(src, flags) && src.Keys == dst.Keys && NestedOnOneLine(env)
    requires forall n <- src :: ListableFlag(dst, n, src[n].current)
    requires forall n <- src :: !FitsOnLine(src[n].current) ==> dst[n].current != src[n].current
    ensures (forall n <- dst ::
              ReadFlags(ParserState(dst, {}), Print(flags), SetFlagsValue, env).view[n].current == src[n].current)
       <==> (forall n <- src :: FitsOnLine(src[n].current))
  {
    hide Print, ReadText, ListableFlag, PrintableFlag, NestedOnOneLine, ListsAll, FitsOnLine;
    var r := ReadFlags(ParserState(dst, {}), Print(flags), SetFlagsValue, env);
    if forall n <- src :: FitsOnLine(src[n].current) {
      forall n | n in src ensures PrintableFlag(dst, n, src[n].current) {
        ListableIsPrintable(dst, n, src[n].current);
      }
      RoundTrip(src, flags, dst, env);
    } else {
      var n :| n in src && !FitsOnLine(src[n].current);
      ReadValuesFit(ReadState(ParserState(dst, {}), true, false), CString(Print(flags)), env);
      assert n in dst;
    }
  }

  /** The value of a string flag whose second line asks for the flag's own value in the environment. */
  function Broken(name: string): string {
    "a\n" + AskFor(name)
  }

  function AskFor(name: string): string {
    "--fromenv=" + name
  }

  /** An environment variable with a line break is the one way around that condition: here the second line of a string
      makes the reader fetch the whole string from the environment. */
  lemma EnvironmentKeepsBreak(view: View, name: string, env: Env)
    requires name in view && !IsRecursive(name) && OneLine(name) && '=' !in name
    requires view[name].flagType == StringFlag && view[name].validator == None
    requires "fromenv" in view && view["fromenv"].flagType == StringFlag && view["fromenv"].validator == None
    requires name != "" && env.nested("fromenv", name) == [(name, Broken(name))]
    ensures ReadFlags(ParserState(view, {}), Print([(name, StringValue(Broken(name)))]), SetFlagsValue, env).view[name].current
              == StringValue(Broken(name))
  {
    hide SplitArgument, SetFlag, ProcessLine, ReadText, Print, PrintFlag, CString, Nested, Broken, AskFor;
    var st := ReadState(ParserState(view, {}), true, false);
    var first, second := PrintFlag(name, StringValue("a")), AskFor(name);
    TwoLines(name);
    PrintableLetter(view, name);
    ReadPrintedFlag(st, name, StringValue("a"), env);
    var st1 := ProcessLine(st, first, SetFlagsValue, env);
    var st2 := ProcessLine(st1, second, SetFlagsValue, env);
    FetchedLine(st1, name, Broken(name), env);
    ReadOneLine(st, first, second + "\n" + "", env);
    ReadOneLine(st1, second, "", env);
    ReadNothing(st2, env);
  }

  lemma PrintableLetter(view: View, name: string)
    requires name in view && !IsRecursive(name) && OneLine(name) && '=' !in name
    requires view[name].flagType == StringFlag && view[name].validator == None
    ensures PrintableFlag(view, name, StringValue("a"))
    ensures PrintFlag(name, StringValue("a")) != "" && PrintFlag(name, StringValue("a"))[0] == '-'
    ensures OneLine(AskFor(name)) && AskFor(name) != "" && AskFor(name)[0] == '-'
  {
  }

  lemma TwoLines(name: string)
    requires OneLine(name)
    ensures var text := Print([(name, StringValue(Broken(name)))]);
            text == PrintFlag(name, StringValue("a")) + "\n" + (AskFor(name) + "\n" + "") && CString(text) == text
  {
    hide AskFor;
    var flags := [(name, StringValue(Broken(name)))];
    assert flags[1..] == [];
    BreakInside("--" + name + "=", AskFor(name));
    PrintableAsk(name);
    assert '\0' !in Print(flags);
  }

  lemma BreakInside(front: string, back: string)
    ensures front + ("a\n" + back) + "\n" + "" == front + "a" + "\n" + (back + "\n" + "")
  {
    assert front + ("a\n" + back) == front + "a" + "\n" + back;
  }

  lemma PrintableAsk(name: string)
    requires OneLine(name)
    ensures OneLine(AskFor(name))
  {
  }

  lemma SetString(f: FlagState, s: string)
    requires f.flagType == StringFlag && f.validator == None
    ensures SetFlag(f, s, SetFlagsValue) == (f.(current := StringValue(s), modified := true), true)
  {
  }

  lemma FetchedLine(st: ReadState, name: string, s: string, env: Env)
    requires st.relevant && "fromenv" in st.flags.view && name in st.flags.view && name != "fromenv" && name != ""
    requires st.flags.view["fromenv"].flagType == StringFlag && st.flags.view["fromenv"].validator == None
    requires st.flags.view[name].flagType == StringFlag && st.flags.view[name].validator == None
    requires env.nested("fromenv", name) == [(name, s)]
    ensures ProcessLine(st, AskFor(name), SetFlagsValue, env).flags.view[name].current == StringValue(s)
  {
    hide SplitArgument, SetFlag;
    var line := AskFor(name);
    assert StripDashes(line) == "fromenv" + "=" + name;
    SplitPrinted(TypesOf(st.flags.view), "fromenv", name);
    SetString(st.flags.view["fromenv"], name);
    var st' := SetOne(st.flags, "fromenv", name, SetFlagsValue);
    SetString(st'.view[name], s);
    assert SetAll(st', [(name, s)], SetFlagsValue) == SetOne(st', name, s, SetFlagsValue);
  }

  // ----- The parser object -----

  class CommandLineFlagParser {
    const registry: FlagRegistry
    var errorFlags: set<string>

    constructor (registry: FlagRegistry)
      ensures this.registry == registry && errorFlags == {}
    {
      this.registry := registry;
      errorFlags := {};
    }

    ghost function State(): ParserState
      reads this, registry, registry.flags.Values
    {
      ParserState(registry.View(), errorFlags)
    }

    method SetOneLocked(name: string, text: string, mode: FlagSettingMode) returns (ok: bool)
      requires registry.Valid()
      modifies this, registry.flags.Values
      ensures State() == SetOne(old(State()), name, text, mode)
      ensures name in registry.flags ==> ok == SetFlag(old(registry.View()[name]), text, mode).1
    {
      hide FlagRegistry.View, SetFlag;
      ok := false;
      if name in registry.flags {
        ok := registry.SetFlagLocked(name, text, mode);
      }
      if !ok { errorFlags := errorFlags + {name}; }
    }

    method SetAllLocked(assignments: seq<(string, string)>, mode: FlagSettingMode)
      requires registry.Valid()
      modifies this, registry.flags.Values
      ensures State() == SetAll(old(State()), assignments, mode)
    {
      hide SetOne, FlagRegistry.View;
      ghost var st := State();
      for i := 0 to |assignments|
        invariant SetAll(st, assignments, mode) == SetAll(State(), assignments[i..], mode)
      {
        var _ := SetOneLocked(assignments[i].0, assignments[i].1, mode);
        assert assignments[i..][1..] == assignments[i + 1..];
      }
    }

    method ProcessSingleOptionLocked(name: string, text: string, mode: FlagSettingMode, env: Env)
      requires registry.Valid() && name in registry.flags
      modifies this, registry.flags.Values
      ensures State() == ProcessSingleOption(old(State()), name, text, mode, env)
    {
      hide SetOne, SetAll, SetFlag;
      var ok := SetOneLocked(name, text, mode);
      if ok {
        SetAllLocked(Nested(name, registry.flags[name].current, env), mode);
      }
    }

    method ProcessLineLocked(line: string, relevant: bool, inFilenames: bool, mode: FlagSettingMode, env: Env)
        returns (relevant': bool, inFilenames': bool)
      requires registry.Valid()
      modifies this, registry.flags.Values
      ensures ReadState(State(), relevant', inFilenames')
           == ProcessLine(ReadState(old(State()), relevant, inFilenames), line, mode, env)
    {
      hide SplitArgument, ProcessSingleOption, FlagRegistry.View, FlagRegistry.Types, TypesOf;
      relevant', inFilenames' := relevant, inFilenames;
      if line == "" || line[0] == '#' {
      } else if line[0] == '-' {
        inFilenames' := false;
        if relevant {
          var split := SplitArgument(registry.Types(), StripDashes(line));
          TypesAgree(registry);
          if split.Found? && split.value.Some? {
            ProcessSingleOptionLocked(split.name, split.value.value, mode, env);
          }
        }
      } else {
        if !inFilenames {
          inFilenames' := true;
          relevant' := false;
        }
        relevant' := relevant' || AnyWordMatches(line, env);
      }
    }

    /** Reads a flag file a line at a time. */
    method ProcessOptionsFromStringLocked(contents: string, mode: FlagSettingMode, env: Env)
      requires registry.Valid()
      modifies this, registry.flags.Values
      ensures State() == ReadFlags(old(State()), contents, mode, env)
    {
      hide ProcessLine, CString, FlagRegistry.View;
      var rest := CString(contents);
      var relevant, inFilenames, done := true, false, false;
      ghost var result := ReadFlags(State(), contents, mode, env);
      while !done
        invariant result == if done then State()
                            else ReadText(ReadState(State(), relevant, inFilenames), rest, mode, env).flags
        decreases !done, |rest|
      {
        rest := rest[SpacesEnd(rest)..];
        var end := IndexOf(rest, '\n');
        relevant, inFilenames := ProcessLineLocked(rest[..end], relevant, inFilenames, mode, env);
        if end < |rest| { rest := rest[end + 1..]; } else { done := true; }
      }
    }
  }

  /** Reads flags from a string with rollback: a false result means that nothing has changed. */
  method ReadFlagsFromString(registry: FlagRegistry, contents: string, env: Env) returns (ok: bool)
    requires registry.Valid()
    modifies registry.flags.Values
    ensures var r := ReadFlags(ParserState(old(registry.View()), {}), contents, SetFlagsValue, env);
            && ok == (r.errors == {})
            && registry.View() == if ok then r.view else old(registry.View())
  {
    hide ReadFlags, FlagRegistry.View, States, Restored;
    ghost var view := registry.View();
    var savedStates := new FlagSaverImpl(registry);
    savedStates.SaveFromRegistry();
    var parser := new CommandLineFlagParser(registry);
    assert parser.State() == ParserState(view, {});
    parser.ProcessOptionsFromStringLocked(contents, SetFlagsValue, env);
    ghost var r := ReadFlags(ParserState(view, {}), contents, SetFlagsValue, env);
    assert parser.errorFlags == r.errors && registry.View() == r.view;
    ok := parser.errorFlags == {};
    if !ok {
      assert States(savedStates.backupRegistry) == view;
      savedStates.RestoreToRegistry();
      assert registry.View() == view;
    }
  }
}
