/** Parsing the command line: flags are consumed in place and everything else is permuted to the end. */
module ArgvParser {
  import opened Basics
  import opened FlagValues
  import opened CommandLineFlags
  import opened FlagText

  /** A word that is not a flag. */
  predicate IsWord(arg: string) {
    arg == "" || arg[0] != '-' || arg == "-"
  }

  /** What the first of the remaining arguments is: a word, the end of all flags, a flag that together with its value
      takes up `count` arguments, or a flag whose value is missing. */
  datatype Item =
    | Word
    | EndOfFlags
    | Flag(count: nat, after: ParserState)
    | ValueMissing(after: ParserState)

  function FirstItem(args: seq<string>, st: ParserState, env: Env): (item: Item)
    requires args != []
    ensures item.Flag? ==> 1 <= item.count <= |args| && item.count <= 2
    ensures item.ValueMissing? ==> |args| == 1
  {
    if IsWord(args[0]) then Word
    else if StripDashes(args[0]) == "" then EndOfFlags
    else
      var split := SplitArgument(TypesOf(st.view), StripDashes(args[0]));
      if split.Unknown? then Flag(1, st.(errors := st.errors + {split.key}))
      else if split.value.Some? then Flag(1, ProcessSingleOption(st, split.name, split.value.value, SetFlagsValue, env))
      else if |args| == 1 then ValueMissing(st.(errors := st.errors + {split.name}))
      else Flag(2, ProcessSingleOption(st, split.name, args[1], SetFlagsValue, env))
  }

  /** How a list of arguments is understood: the flags with their values in order, whatever follows "--",
      the words in front of it, and the registry afterwards. */
  datatype Scan = Scan(options: seq<string>, tail: seq<string>, moved: seq<string>, flags: ParserState) {
    ghost function Behind(options': seq<string>, moved': seq<string>): Scan {
      Scan(options' + options, tail, moved' + moved, flags)
    }
  }

  /** Reads the arguments from left to right. */
  ghost function ScanArgs(args: seq<string>, st: ParserState, env: Env): Scan
    decreases |args|
  {
    if args == [] then Scan([], [], [], st)
    else
      match FirstItem(args, st, env)
      case Word => ScanArgs(args[1..], st, env).Behind([], args[..1])
      case EndOfFlags => Scan(args[..1], args[1..], [], st)
      case Flag(n, st') => ScanArgs(args[n..], st', env).Behind(args[..n], [])
      case ValueMissing(st') => Scan(args, [], [], st')
  }

  /** `c` deals the elements of `a` and of `b`, each in order. */
  ghost predicate Shuffle(a: seq<string>, b: seq<string>, c: seq<string>)
    decreases |c|
  {
    if c == [] then a == [] && b == []
    else
      || (a != [] && a[0] == c[0] && Shuffle(a[1..], b, c[1..]))
      || (b != [] && b[0] == c[0] && Shuffle(a, b[1..], c[1..]))
  }

  lemma {:induction false} ShuffleTakes(p: seq<string>, a: seq<string>, b: seq<string>, c: seq<string>)
    requires Shuffle(a, b, c)
    ensures Shuffle(p + a, b, p + c)
    decreases |p|
  {
    if p == [] {
      assert p + a == a && p + c == c;
    } else {
      ShuffleTakes(p[1..], a, b, c);
      assert (p + a)[1..] == p[1..] + a && (p + c)[1..] == p[1..] + c;
    }
  }

  lemma ShuffleMoves(w: string, a: seq<string>, b: seq<string>, c: seq<string>)
    requires Shuffle(a, b, c)
    ensures Shuffle(a, [w] + b, [w] + c)
  {
    assert ([w] + b)[1..] == b && ([w] + c)[1..] == c;
  }

  lemma ShuffleNothing(c: seq<string>)
    ensures Shuffle(c, [], c)
  {
    ShuffleTakes(c, [], [], []);
    assert c + [] == c;
  }

  lemma {:induction false} ShufflePermutes(a: seq<string>, b: seq<string>, c: seq<string>)
    requires Shuffle(a, b, c)
    ensures multiset(a) + multiset(b) == multiset(c)
    decreases |c|
  {
    if c != [] {
      assert c == [c[0]] + c[1..];
      if a != [] && a[0] == c[0] && Shuffle(a[1..], b, c[1..]) {
        ShufflePermutes(a[1..], b, c[1..]);
        assert a == [a[0]] + a[1..];
      } else {
        ShufflePermutes(a, b[1..], c[1..]);
        assert b == [b[0]] + b[1..];
      }
    }
  }

  /** Nothing is lost, duplicated or changed, and only words move, past flags and their values. */
  lemma {:induction false} ScanKeepsOrder(args: seq<string>, st: ParserState, env: Env)
    ensures var r := ScanArgs(args, st, env);
            Shuffle(r.options + r.tail, r.moved, args) && forall w <- r.moved :: IsWord(w)
    decreases |args|
  {
    hide FirstItem, Shuffle;
    if args == [] {
      ShuffleNothing([]);
    } else {
      var item := FirstItem(args, st, env);
      var r := ScanArgs(args, st, env);
      WordFirst(args, st, env);
      if item == Word {
        var rest := ScanArgs(args[1..], st, env);
        ScanKeepsOrder(args[1..], st, env);
        ShuffleMoves(args[0], rest.options + rest.tail, rest.moved, args[1..]);
        assert args == [args[0]] + args[1..] && args[..1] == [args[0]] && r.options == rest.options;
      } else if item.Flag? {
        var rest := ScanArgs(args[item.count..], item.after, env);
        ScanKeepsOrder(args[item.count..], item.after, env);
        ShuffleTakes(args[..item.count], rest.options + rest.tail, rest.moved, args[item.count..]);
        assert args == args[..item.count] + args[item.count..] && r.moved == rest.moved;
        assert args[..item.count] + (rest.options + rest.tail) == r.options + r.tail;
      } else {
        ShuffleNothing(args);
        assert r.options + r.tail == args;
      }
    }
  }

  lemma WordFirst(args: seq<string>, st: ParserState, env: Env)
    requires args != []
    ensures FirstItem(args, st, env) == Word <==> IsWord(args[0])
  {
  }

  // ----- What the arguments do to the flags -----

  /** The ways of writing an argument: a word; a flag with its value in the same argument or in the next one;
      a boolean flag alone, or switched off. */
  datatype Argument =
    | Plain(word: string)
    | Joined(dash: string, name: string, text: string, value: FlagValue)
    | Separate(dash: string, name: string, text: string, value: FlagValue)
    | SwitchOn(dash: string, name: string)
    | SwitchOff(dash: string, name: string)

  function Texts(a: Argument): (texts: seq<string>)
    ensures texts != []
  {
    match a
    case Plain(word) => [word]
    case Joined(dash, name, text, _) => [dash + Written(name, Some(text))]
    case Separate(dash, name, text, _) => [dash + Written(name, None), text]
    case SwitchOn(dash, name) => [dash + Written(name, None)]
    case SwitchOff(dash, name) => [dash + Written("no" + name, None)]
  }

  /** The value that a flag is given. */
  function Given(a: Argument): FlagValue
    requires !a.Plain?
  {
    match a
    case Joined(_, _, _, value) => value
    case Separate(_, _, _, value) => value
    case SwitchOn(_, _) => BoolValue(true)
    case SwitchOff(_, _) => BoolValue(false)
  }

  /** A word, or a registered flag with a text that means a value of its type (its printed form, for one), which its
      validator accepts and which does not set off further reading. */
  ghost predicate Fine(view: View, a: Argument) {
    if a.Plain? then a.word == "" || a.word[0] != '-' || a.word == "-"
    else
      && (a.dash == "-" || a.dash == "--") && a.name != "" && a.name[0] != '-' && '=' !in a.name
      && (a.Joined? || a.Separate? ==> ParseFrom(a.value.Type(), a.text) == Some(a.value)) && (IsRecursive(a.name) ==> Given(a) == StringValue(""))
      && a.name in view && view[a.name].flagType == Given(a).Type() && view[a.name].Accepts(Given(a))
      && (a.Separate? ==> !a.value.BoolValue?)
      && (a.SwitchOff? ==> "no" + a.name !in view)
  }

  function AllTexts(list: seq<Argument>): seq<string> {
    if list == [] then [] else Texts(list[0]) + AllTexts(list[1..])
  }

  function OptionTexts(list: seq<Argument>): seq<string> {
    if list == [] then [] else (if list[0].Plain? then [] else Texts(list[0])) + OptionTexts(list[1..])
  }

  function WordTexts(list: seq<Argument>): seq<string> {
    if list == [] then [] else (if list[0].Plain? then Texts(list[0]) else []) + WordTexts(list[1..])
  }

  /** What the arguments set, in order. */
  function Settings(list: seq<Argument>): seq<(string, FlagValue)> {
    if list == [] then []
    else (if list[0].Plain? then [] else [(list[0].name, Given(list[0]))]) + Settings(list[1..])
  }

  /** The registry after one argument. */
  ghost function AfterArgument(view: View, a: Argument): View
    requires Fine(view, a)
  {
    if a.Plain? then view else view[a.name := view[a.name].(current := Given(a), modified := true)]
  }

  lemma DashesStripped(dash: string, text: string)
    requires (dash == "-" || dash == "--") && text != "" && text[0] != '-'
    ensures !IsWord(dash + text) && StripDashes(dash + text) == text
  {
  }

  lemma SetsTo(st: ParserState, name: string, text: string, value: FlagValue, env: Env)
    requires name in st.view && (IsRecursive(name) ==> value == StringValue(""))
    requires ParseFrom(st.view[name].flagType, text) == Some(value) && st.view[name].Accepts(value)
    ensures ProcessSingleOption(st, name, text, SetFlagsValue, env)
         == st.(view := st.view[name := st.view[name].(current := value, modified := true)])
  {
    hide ParseFrom;
  }

  /** A flag that is written well is read as that flag with that value, in one argument or in two. */
  lemma ReadArgument(a: Argument, rest: seq<string>, st: ParserState, env: Env)
    requires Fine(st.view, a)
    ensures FirstItem(Texts(a) + rest, st, env)
         == if a.Plain? then Word else Flag(|Texts(a)|, st.(view := AfterArgument(st.view, a)))
  {
    hide SplitArgument, ParseFrom, ProcessSingleOption, Written;
    var args := Texts(a) + rest;
    if !a.Plain? {
      var types := TypesOf(st.view);
      var key := if a.SwitchOff? then "no" + a.name else a.name;
      var value := if a.Joined? then Some(a.text) else None;
      assert args[0] == a.dash + Written(key, value);
      KeyStarts(a.name, value);
      DashesStripped(a.dash, Written(key, value));
      SplitsAsWritten(types, key, value);
      SwitchWords();
      if a.Joined? || a.Separate? {
        SetsTo(st, a.name, a.text, a.value, env);
        if a.Separate? { assert args[1] == a.text; }
      } else {
        SetsTo(st, a.name, if a.SwitchOn? then "1" else "0", Given(a), env);
      }
    }
  }

  lemma KeyStarts(name: string, value: Option<string>)
    requires name != "" && name[0] != '-' && '=' !in name
    ensures Written(name, value) != "" && Written(name, value)[0] != '-'
    ensures Written("no" + name, value) != "" && Written("no" + name, value)[0] != '-' && '=' !in "no" + name
  {
  }

  lemma StillFine(view: View, a: Argument, list: seq<Argument>)
    requires Fine(view, a) && forall i :: 0 <= i < |list| ==> Fine(view, list[i])
    ensures forall i :: 0 <= i < |list| ==> Fine(AfterArgument(view, a), list[i])
  {
  }

  lemma {:induction false} SettingsNames(view: View, list: seq<Argument>)
    requires forall i :: 0 <= i < |list| ==> Fine(view, list[i])
    ensures forall i :: 0 <= i < |Settings(list)| ==> Settings(list)[i].0 in view
    decreases |list|
  {
    if list != [] { SettingsNames(view, list[1..]); }
  }

  lemma AssignedNext(view: View, a: Argument, list: seq<Argument>)
    requires Fine(view, a) && forall i :: 0 <= i < |list| ==> Fine(view, list[i])
    ensures forall i :: 0 <= i < |Settings([a] + list)| ==> Settings([a] + list)[i].0 in view
    ensures forall i :: 0 <= i < |Settings(list)| ==> Settings(list)[i].0 in AfterArgument(view, a)
    ensures Assigned(view, Settings([a] + list)) == Assigned(AfterArgument(view, a), Settings(list))
  {
    SettingsNames(view, list);
    assert ([a] + list)[1..] == list;
    if a.Plain? {
      assert [] + Settings(list) == Settings(list);
    } else {
      assert ([(a.name, Given(a))] + Settings(list))[1..] == Settings(list);
    }
  }

  /** Arguments that are written well are taken one after the other: flags get their values, words are set aside. */
  lemma {:induction false} ScanTakes(list: seq<Argument>, rest: seq<string>, st: ParserState, env: Env)
    requires forall i :: 0 <= i < |list| ==> Fine(st.view, list[i])
    ensures forall i :: 0 <= i < |Settings(list)| ==> Settings(list)[i].0 in st.view
    ensures ScanArgs(AllTexts(list) + rest, st, env)
         == ScanArgs(rest, st.(view := Assigned(st.view, Settings(list))), env).Behind(OptionTexts(list), WordTexts(list))
    decreases |list|
  {
    hide FirstItem, Fine, Texts, Assigned;
    SettingsNames(st.view, list);
    if list == [] {
      assert AllTexts(list) + rest == rest;
      BehindNothing(ScanArgs(rest, st, env));
      NothingAssigned(st.view);
    } else {
      var a, more := list[0], AllTexts(list[1..]) + rest;
      var st' := st.(view := AfterArgument(st.view, a));
      assert AllTexts(list) + rest == Texts(a) + more && list == [a] + list[1..];
      ReadArgument(a, more, st, env);
      ScanNext(a, more, st, env);
      StillFine(st.view, a, list[1..]);
      AssignedNext(st.view, a, list[1..]);
      ScanTakes(list[1..], rest, st', env);
      BehindTwice(ScanArgs(rest, st'.(view := Assigned(st'.view, Settings(list[1..]))), env),
                  OptionTexts(list[1..]), WordTexts(list[1..]),
                  if a.Plain? then [] else Texts(a), if a.Plain? then Texts(a) else []);
    }
  }

  lemma NothingAssigned(view: View)
    ensures Assigned(view, []) == view
  {
  }

  /** The scan of an argument and of what follows it. */
  lemma ScanNext(a: Argument, more: seq<string>, st: ParserState, env: Env)
    requires Fine(st.view, a)
    ensures ScanArgs(Texts(a) + more, st, env)
         == ScanArgs(more, st.(view := AfterArgument(st.view, a)), env)
              .Behind(if a.Plain? then [] else Texts(a), if a.Plain? then Texts(a) else [])
  {
    hide FirstItem, Fine;
    var args, n := Texts(a) + more, |Texts(a)|;
    ReadArgument(a, more, st, env);
    assert args[n..] == more && args[..n] == Texts(a);
  }

  lemma BehindTwice(r: Scan, o1: seq<string>, m1: seq<string>, o2: seq<string>, m2: seq<string>)
    ensures r.Behind(o1, m1).Behind(o2, m2) == r.Behind(o2 + o1, m2 + m1)
  {
    assert o2 + (o1 + r.options) == o2 + o1 + r.options && m2 + (m1 + r.moved) == m2 + m1 + r.moved;
  }

  /** What may follow the arguments that are read: nothing, or a double dash and anything at all. */
  function Closing(tail: Option<seq<string>>): seq<string> {
    if tail.None? then [] else ["--"] + tail.value
  }

  /** A command line that is written well sets exactly its flags to exactly their values, the last one of each name
      counting, and records no error; nothing behind a double dash is set. */
  lemma CommandLineSets(list: seq<Argument>, tail: Option<seq<string>>, st: ParserState, env: Env)
    requires forall i :: 0 <= i < |list| ==> Fine(st.view, list[i])
    ensures forall i :: 0 <= i < |Settings(list)| ==> Settings(list)[i].0 in st.view
    ensures ScanArgs(AllTexts(list) + Closing(tail), st, env)
         == Scan(OptionTexts(list) + (if tail.None? then [] else ["--"]), if tail.None? then [] else tail.value, WordTexts(list),
                 st.(view := Assigned(st.view, Settings(list))))
  {
    hide Assigned, Fine;
    ScanTakes(list, Closing(tail), st, env);
    ClosingEnds(tail, st.(view := Assigned(st.view, Settings(list))), env);
    if tail.None? { assert OptionTexts(list) + [] == OptionTexts(list); }
    assert WordTexts(list) + [] == WordTexts(list);
  }

  lemma ClosingEnds(tail: Option<seq<string>>, st: ParserState, env: Env)
    ensures ScanArgs(Closing(tail), st, env)
         == Scan(if tail.None? then [] else ["--"], if tail.None? then [] else tail.value, [], st)
  {
    if tail.Some? {
      var args := Closing(tail);
      assert args[0] == "--" && args[1..] == tail.value && args[..1] == ["--"];
    }
  }

  // ----- Errors -----

  lemma ItemKeepsErrors(args: seq<string>, st: ParserState, env: Env)
    requires args != []
    ensures FirstItem(args, st, env).Flag? ==> st.errors <= FirstItem(args, st, env).after.errors
    ensures FirstItem(args, st, env).ValueMissing? ==> st.errors <= FirstItem(args, st, env).after.errors
  {
    hide SplitArgument, ProcessSingleOption;
    if !IsWord(args[0]) && StripDashes(args[0]) != "" {
      var split := SplitArgument(TypesOf(st.view), StripDashes(args[0]));
      if split.Found? {
        if split.value.Some? {
          OptionKeepsErrors(st, split.name, split.value.value, env);
        } else if |args| > 1 {
          OptionKeepsErrors(st, split.name, args[1], env);
        }
      }
    }
  }

  lemma {:induction false} ScanKeepsErrors(args: seq<string>, st: ParserState, env: Env)
    ensures st.errors <= ScanArgs(args, st, env).flags.errors
    decreases |args|
  {
    hide FirstItem;
    if args != [] {
      ItemKeepsErrors(args, st, env);
      match FirstItem(args, st, env)
      case Word => ScanKeepsErrors(args[1..], st, env);
      case EndOfFlags =>
      case Flag(n, st') => ScanKeepsErrors(args[n..], st', env);
      case ValueMissing(st') =>
    }
  }

  /** The mistakes in a flag that is written without a separate value: no flag of that name, no value at the very end,
      or a value that is not legal. */
  ghost predicate Mistaken(view: View, key: string, value: Option<string>, last: bool) {
    if key in view then
      if value.Some? then view[key].TryParse(value.value) == None
      else view[key].flagType != BoolFlag && last
    else !exists name :: key == "no" + name && name in view && view[name].flagType == BoolFlag
  }

  /** A mistake anywhere on the command line is recorded under the name of the flag. */
  lemma MistakesAreRecorded(list: seq<Argument>, dash: string, key: string, value: Option<string>, rest: seq<string>,
                            st: ParserState, env: Env)
    requires forall i :: 0 <= i < |list| ==> Fine(st.view, list[i])
    requires (dash == "-" || dash == "--") && '=' !in key && Written(key, value) != "" && Written(key, value)[0] != '-'
    requires Mistaken(st.view, key, value, rest == [])
    ensures key in ScanArgs(AllTexts(list) + ([dash + Written(key, value)] + rest), st, env).flags.errors
  {
    hide Assigned, Fine, FirstItem, Mistaken, ScanArgs;
    var args := [dash + Written(key, value)] + rest;
    ScanTakes(list, args, st, env);
    var st' := st.(view := Assigned(st.view, Settings(list)));
    AssignedSame(st.view, Settings(list));
    StillMistaken(st.view, st'.view, key, value, rest == []);
    MistakeIsSeen(dash, key, value, rest, st', env);
  }

  lemma StillMistaken(a: View, b: View, key: string, value: Option<string>, last: bool)
    requires SameFlags(a, b) && Mistaken(a, key, value, last)
    ensures Mistaken(b, key, value, last)
  {
  }

  lemma MistakeIsSeen(dash: string, key: string, value: Option<string>, rest: seq<string>, st: ParserState, env: Env)
    requires (dash == "-" || dash == "--") && '=' !in key && Written(key, value) != "" && Written(key, value)[0] != '-'
    requires Mistaken(st.view, key, value, rest == [])
    ensures key in ScanArgs([dash + Written(key, value)] + rest, st, env).flags.errors
  {
    hide SplitArgument, Written, SetFlag, FlagState.TryParse;
    var args := [dash + Written(key, value)] + rest;
    DashesStripped(dash, Written(key, value));
    SplitsAsWritten(TypesOf(st.view), key, value);
    if key in st.view && value.Some? { IllegalIsRefused(st.view[key], value.value); }
    var item := FirstItem(args, st, env);
    assert (item.Flag? || item.ValueMissing?) && key in item.after.errors;
    if item.Flag? { ScanKeepsErrors(args[item.count..], item.after, env); }
  }

  // ----- In place -----

  /** memmove of everything behind position `i` one place down, and `arg` to the end. */
  method MoveToEnd(argv: array<string>, i: nat, arg: string)
    requires i < argv.Length
    modifies argv
    ensures argv[..] == old(argv[..i]) + old(argv[i + 1..]) + [arg]
  {
    forall k | i <= k < argv.Length - 1 {
      argv[k] := argv[k + 1];
    }
    argv[argv.Length - 1] := arg;
  }

  /** The layout of argv during the pass: program name, flags, unread arguments, words. */
  ghost predicate Layout(all: seq<string>, program: string, options: seq<string>, rest: seq<string>, moved: seq<string>) {
    all == [program] + options + rest + moved
  }

  lemma LayoutAt(all: seq<string>, program: string, options: seq<string>, rest: seq<string>, moved: seq<string>)
    requires Layout(all, program, options, rest, moved)
    ensures |all| == 1 + |options| + |rest| + |moved|
    ensures all[1 + |options|..1 + |options| + |rest|] == rest
    ensures forall k :: 0 <= k < |rest| ==> all[1 + |options| + k] == rest[k]
  {
  }

  lemma LayoutMovesWord(all: seq<string>, program: string, options: seq<string>, rest: seq<string>, moved: seq<string>)
    requires Layout(all, program, options, rest, moved) && rest != []
    ensures Layout(all[..1 + |options|] + all[2 + |options|..] + rest[..1], program, options, rest[1..], moved + rest[..1])
  {
  }

  lemma LayoutTakesFlag(all: seq<string>, program: string, options: seq<string>, rest: seq<string>, moved: seq<string>, n: nat)
    requires Layout(all, program, options, rest, moved) && n <= |rest|
    ensures Layout(all, program, options + rest[..n], rest[n..], moved)
  {
  }

  /** The whole scan, when the first of the unread arguments is `item`. */
  ghost function ScanAfter(item: Item, options: seq<string>, rest: seq<string>, moved: seq<string>, st: ParserState, env: Env): Scan
    requires rest != [] && (item.Flag? ==> item.count <= |rest|)
  {
    match item
    case Word => ScanArgs(rest[1..], st, env).Behind(options, moved + rest[..1])
    case EndOfFlags => Scan(options + rest[..1], rest[1..], moved, st)
    case Flag(n, after) => ScanArgs(rest[n..], after, env).Behind(options + rest[..n], moved)
    case ValueMissing(after) => Scan(options + rest[..1], rest[1..], moved, after)
  }

  /** What one more item does to a scan whose flags and words so far are known. */
  lemma ScanStep(options: seq<string>, rest: seq<string>, moved: seq<string>, st: ParserState, env: Env)
    requires rest != []
    ensures ScanArgs(rest, st, env).Behind(options, moved) ==
            ScanAfter(FirstItem(rest, st, env), options, rest, moved, st, env)
  {
    hide FirstItem;
    match FirstItem(rest, st, env)
    case Word =>
      var r := ScanArgs(rest[1..], st, env);
      assert moved + (rest[..1] + r.moved) == moved + rest[..1] + r.moved && [] + r.options == r.options;
    case EndOfFlags =>
      assert moved + [] == moved;
    case Flag(n, st') =>
      var r := ScanArgs(rest[n..], st', env);
      assert options + (rest[..n] + r.options) == options + rest[..n] + r.options && [] + r.moved == r.moved;
    case ValueMissing(st') =>
      assert moved + [] == moved && rest[..1] == rest && rest[1..] == [];
  }

  lemma ScanOfNothing(options: seq<string>, moved: seq<string>, st: ParserState, env: Env)
    ensures ScanArgs([], st, env).Behind(options, moved) == Scan(options, [], moved, st)
    ensures ScanArgs([], st, env).Behind([], []) == ScanArgs([], st, env)
  {
  }

  lemma BehindNothing(r: Scan)
    ensures r.Behind([], []) == r
  {
  }

  /** Handles the flag at position `i`. Afterwards `last` is the position of the last argument it took up. */
  method ParseFlag(argv: array<string>, i: nat, firstNonopt: nat, parser: CommandLineFlagParser, env: Env)
      returns (last: nat, missing: bool)
    requires i < firstNonopt <= argv.Length && parser.registry.Valid()
    requires !IsWord(argv[i]) && StripDashes(argv[i]) != ""
    modifies parser, parser.registry.flags.Values
    ensures var item := FirstItem(argv[i..firstNonopt], old(parser.State()), env);
            i <= last < firstNonopt && item == if missing then ValueMissing(parser.State()) else Flag(last + 1 - i, parser.State())
  {
    hide SplitArgument, ProcessSingleOption, FlagRegistry.View, FlagRegistry.Types, TypesOf;
    TypesAgree(parser.registry);
    var split := SplitArgument(parser.registry.Types(), StripDashes(argv[i]));
    last, missing := i, false;
    if split.Unknown? {
      parser.errorFlags := parser.errorFlags + {split.key};
      return;
    }
    var value := split.value;
    if value == None {
      if i + 1 >= firstNonopt {
        parser.errorFlags := parser.errorFlags + {split.name};
        missing := true;
        return;
      }
      last := i + 1;
      value := Some(argv[last]);
    }
    parser.ProcessSingleOptionLocked(split.name, value.value, SetFlagsValue, env);
  }

  /** One pass over argv. The words found so far wait behind position `firstNonopt`. */
  method PermuteAndParse(argv: array<string>, parser: CommandLineFlagParser, env: Env) returns (firstNonopt: nat)
    requires argv.Length >= 1 && parser.registry.Valid()
    modifies argv, parser, parser.registry.flags.Values
    ensures var r := ScanArgs(old(argv[1..]), old(parser.State()), env);
            && parser.State() == r.flags
            && firstNonopt == 1 + |r.options|
            && Layout(argv[..], old(argv[0]), r.options, r.tail, r.moved)
  {
    hide FirstItem, FlagRegistry.View, Layout, ScanArgs, Scan.Behind;
    ghost var program, st := argv[0], parser.State();
    ghost var scan := ScanArgs(argv[1..], st, env);
    ghost var options: seq<string>, rest, moved: seq<string> := [], argv[1..], [];
    LayoutBegins(argv[..]);
    BehindNothing(scan);
    firstNonopt := argv.Length;
    var i := 1;
    while i < firstNonopt
      invariant Layout(argv[..], program, options, rest, moved)
      invariant |options| + 1 == i && i + |rest| == firstNonopt <= argv.Length
      invariant st == parser.State()
      invariant scan == ScanArgs(rest, st, env).Behind(options, moved)
      decreases firstNonopt - i
    {
      LayoutAt(argv[..], program, options, rest, moved);
      ScanStep(options, rest, moved, st, env);
      FirstItemKinds(rest, st, env);
      var arg := argv[i];
      assert argv[i..firstNonopt] == rest && rest[..1] == [arg];
      if IsWord(arg) {
        LayoutMovesWord(argv[..], program, options, rest, moved);
        MoveToEnd(argv, i, arg);
        firstNonopt := firstNonopt - 1;
        rest, moved := rest[1..], moved + rest[..1];
        continue;
      }
      if StripDashes(arg) == "" {
        LayoutTakesFlag(argv[..], program, options, rest, moved, 1);
        options, rest := options + rest[..1], rest[1..];
        firstNonopt := i + 1;
        break;
      }
      var last, missing := ParseFlag(argv, i, firstNonopt, parser, env);
      ghost var n := last + 1 - i;
      LayoutTakesFlag(argv[..], program, options, rest, moved, n);
      st := parser.State();
      options, rest := options + rest[..n], rest[n..];
      if missing { break; }
      i := last + 1;
    }
    ScanOfNothing(options, moved, st, env);
    assert scan == Scan(options, rest, moved, st);
  }

  /** Parses and permutes argv. With `removeFlags` the program name is put in front of what is left,
      and argv then starts at `base`. */
  method ParseNewCommandLineFlags(argv: array<string>, parser: CommandLineFlagParser, removeFlags: bool, env: Env)
      returns (base: nat, argc: nat, firstNonopt: nat)
    requires argv.Length >= 1 && parser.registry.Valid()
    modifies argv, parser, parser.registry.flags.Values
    ensures var r := ScanArgs(old(argv[1..]), old(parser.State()), env);
            && parser.State() == r.flags
            && base + argc == argv.Length && base + firstNonopt == 1 + |r.options|
            && (if removeFlags
                then firstNonopt == 1 && argv[base..] == [old(argv[0])] + r.tail + r.moved
                else base == 0 && argv[..] == [old(argv[0])] + r.options + r.tail + r.moved)
  {
    hide ScanArgs, Layout, FlagRegistry.View;
    ghost var program, r := argv[0], ScanArgs(argv[1..], parser.State(), env);
    firstNonopt := PermuteAndParse(argv, parser, env);
    base, argc := 0, argv.Length;
    LayoutIs(argv[..], program, r.options, r.tail, r.moved);
    if removeFlags {
      ghost var all := argv[..];
      LayoutRemovesFlags(all, program, r.options, r.tail, r.moved);
      argv[firstNonopt - 1] := argv[0];
      assert argv[..] == all[|r.options| := program];
      base, argc := firstNonopt - 1, argv.Length - (firstNonopt - 1);
      firstNonopt := 1;
    }
  }

  lemma LayoutBegins(all: seq<string>)
    requires all != []
    ensures Layout(all, all[0], [], all[1..], [])
  {
  }

  lemma FirstItemKinds(args: seq<string>, st: ParserState, env: Env)
    requires args != []
    ensures FirstItem(args, st, env) == Word <==> IsWord(args[0])
    ensures !IsWord(args[0]) ==> (FirstItem(args, st, env) == EndOfFlags <==> StripDashes(args[0]) == "")
  {
  }

  lemma LayoutIs(all: seq<string>, program: string, options: seq<string>, rest: seq<string>, moved: seq<string>)
    requires Layout(all, program, options, rest, moved)
    ensures all == [program] + options + rest + moved && all[0] == program
  {
  }

  lemma LayoutRemovesFlags(all: seq<string>, program: string, options: seq<string>, rest: seq<string>, moved: seq<string>)
    requires Layout(all, program, options, rest, moved)
    ensures |options| < |all| && all[0] == program
    ensures all[|options| := program][|options|..] == [program] + rest + moved
  {
  }
}
