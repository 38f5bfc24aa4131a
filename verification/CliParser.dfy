/** The command-line parser (pkg/cli/parser.go).

    The parser reads one argument after the other in a command, a flag may take a second one,
    and a subcommand name hands the rest to the subcommand.  What a flag does with its value
    is a partial update of that flag's state.  `Parse` says what the index-moving loop
    computes; rewriting arguments is then proved to preserve the outcome.
  */
module CliModel {
  import opened Common

  /** A flag and what it does with a value: the new state, or None if the value is refused. */
  datatype Flag<!S> = Flag(
    name: string, boolean: bool, required: bool,
    initial: S, parse: (S, string) -> Option<S>, hasValue: S -> bool)

  datatype Command<!S> = Command(
    name: string, aliases: seq<string>, version: string, acceptsArgs: bool,
    flags: seq<Flag<S>>, requireOneOf: seq<seq<string>>, subs: seq<Command<S>>)

  datatype Error =
    | UnknownCommand(arg: string)
    | UnknownFlag(name: string)
    | NeedsValue(name: string)
    | BadValue(name: string)
    | UnexpectedArgs(arg: string)
    | MissingRequired(name: string)
    | UnknownInGroup(name: string)
    | NotExactlyOne(group: seq<string>)

  /** The flag states of one command on the path from the root. */
  datatype Frame<S> = Frame(command: string, states: seq<S>)

  datatype Outcome<S> =
    | Help(frames: seq<Frame<S>>)
    | Version(frames: seq<Frame<S>>)
    | Failed(frames: seq<Frame<S>>, error: Error)
    | Finished(frames: seq<Frame<S>>, args: seq<string>)

  // ---------- Where the parser stands ----------

  datatype Place<!S> = Place(
    cmd: Command<S>, above: seq<Frame<S>>, states: seq<S>, args: seq<string>, stop: bool)
  {
    ghost predicate Valid() { |states| == |cmd.flags| }

    function Frames(): seq<Frame<S>> { above + [Frame(cmd.name, states)] }
  }

  function Initial<S>(flags: seq<Flag<S>>): (r: seq<S>)
    ensures |r| == |flags|
  {
    seq(|flags|, i requires 0 <= i < |flags| => flags[i].initial)
  }

  function Start<S>(cmd: Command<S>, above: seq<Frame<S>>): (g: Place<S>)
    ensures g.Valid()
  {
    Place(cmd, above, Initial(cmd.flags), [], false)
  }

  // ---------- Flags ----------

  predicate HasPrefix(s: string, p: string) { |p| <= |s| && s[..|p|] == p }

  /** Splits at the first '='. */
  function SplitEq(s: string): (string, Option<string>)
  {
    if s == "" then ("", None)
    else if s[0] == '=' then ("", Some(s[1..]))
    else
      var (name, value) := SplitEq(s[1..]);
      ([s[0]] + name, value)
  }

  function StripDashes(arg: string): string
    requires HasPrefix(arg, "-")
  {
    if HasPrefix(arg, "--") then arg[2..] else arg[1..]
  }

  /** The flag map: the last flag of a name wins. */
  function Lookup<S>(flags: seq<Flag<S>>, name: string): (r: Option<nat>)
    ensures r.Some? ==> r.value < |flags| && flags[r.value].name == name
    ensures r.Some? ==> forall j :: r.value < j < |flags| ==> flags[j].name != name
    ensures r.None? ==> forall j :: 0 <= j < |flags| ==> flags[j].name != name
  {
    if flags == [] then None
    else
      var n := |flags| - 1;
      if flags[n].name == name then Some(n) else Lookup(flags[..n], name)
  }

  datatype Move<!S> = Continue(g: Place<S>, rest: seq<string>) | Halt(o: Outcome<S>)

  /** Gives the flag its value. */
  function SetFlag<S>(g: Place<S>, i: nat, value: string, rest: seq<string>): Move<S>
    requires g.Valid() && i < |g.cmd.flags|
  {
    var f := g.cmd.flags[i];
    var s := f.parse(g.states[i], value);
    if s.None? then Halt(Failed(g.Frames(), BadValue(f.name)))
    else Continue(g.(states := g.states[i := s.value]), rest)
  }

  function ParseFlag<S>(g: Place<S>, args: seq<string>): Move<S>
    requires g.Valid() && args != [] && HasPrefix(args[0], "-")
  {
    var (name, value) := SplitEq(StripDashes(args[0]));
    var i := Lookup(g.cmd.flags, name);
    if i.None? then Halt(Failed(g.Frames(), UnknownFlag(name)))
    else if g.cmd.flags[i.value].boolean then
      SetFlag(g, i.value, if value.Some? then value.value else "", args[1..])
    else if value.Some? then SetFlag(g, i.value, value.value, args[1..])
    else if |args| < 2 then Halt(Failed(g.Frames(), NeedsValue(name)))
    else SetFlag(g, i.value, args[1], args[2..])
  }

  // ---------- One argument ----------

  predicate IsHelp(arg: string) { arg == "-h" || arg == "--help" || arg == "help" }

  predicate IsVersion<S>(cmd: Command<S>, arg: string)
  {
    (arg == "-v" || arg == "--version") && cmd.version != ""
  }

  predicate IsPositional(arg: string) { !HasPrefix(arg, "-") || arg == "-" }

  predicate Named<S>(cmd: Command<S>, arg: string) { cmd.name == arg || arg in cmd.aliases }

  /** The first subcommand that goes by the name. */
  function FindSub<S>(subs: seq<Command<S>>, arg: string): (i: nat)
    ensures i <= |subs|
    ensures i < |subs| ==> subs[i].name == arg || arg in subs[i].aliases
    ensures forall j :: 0 <= j < i ==> subs[j].name != arg && arg !in subs[j].aliases
  {
    if subs == [] || Named(subs[0], arg) then 0 else 1 + FindSub(subs[1..], arg)
  }

  function Next<S>(g: Place<S>, args: seq<string>): (m: Move<S>)
    requires g.Valid() && args != []
    ensures m.Continue? ==> m.g.Valid() && |m.rest| < |args|
  {
    var arg := args[0];
    if arg == "--" && !g.stop then Continue(g.(stop := true), args[1..])
    else if g.stop then Continue(g.(args := g.args + [arg]), args[1..])
    else if IsHelp(arg) then Halt(Help(g.Frames()))
    else if IsVersion(g.cmd, arg) then Halt(Version(g.Frames()))
    else if IsPositional(arg) then
      var i := FindSub(g.cmd.subs, arg);
      if i < |g.cmd.subs| then Continue(Start(g.cmd.subs[i], g.Frames()), args[1..])
      else if |g.cmd.subs| > 0 then Halt(Failed(g.Frames(), UnknownCommand(arg)))
      else Continue(g.(args := g.args + [arg]), args[1..])
    else ParseFlag(g, args)
  }

  // ---------- The end of the arguments ----------

  function FirstUnset<S>(flags: seq<Flag<S>>, states: seq<S>): (i: nat)
    requires |states| == |flags|
    ensures i <= |flags|
    ensures i < |flags| ==> flags[i].required && !flags[i].hasValue(states[i])
    ensures forall j :: 0 <= j < i ==> flags[j].required ==> flags[j].hasValue(states[j])
  {
    if flags == [] || (flags[0].required && !flags[0].hasValue(states[0])) then 0
    else 1 + FirstUnset(flags[1..], states[1..])
  }

  /** How many flags of a group are set; None if the group names an unknown flag first. */
  function CheckGroup<S>(flags: seq<Flag<S>>, states: seq<S>, group: seq<string>): (r: (Option<Error>, nat))
    requires |states| == |flags|
    ensures r.0.Some? ==> r.0.value.UnknownInGroup?
  {
    if group == [] then (None, 0)
    else
      var (err, n) := CheckGroup(flags, states, group[..|group| - 1]);
      var name := group[|group| - 1];
      var i := Lookup(flags, name);
      if err.Some? then (err, 0)
      else if i.None? then (Some(UnknownInGroup(name)), 0)
      else (None, if flags[i.value].hasValue(states[i.value]) then n + 1 else n)
  }

  function GroupError<S>(flags: seq<Flag<S>>, states: seq<S>, group: seq<string>): Option<Error>
    requires |states| == |flags|
  {
    var (err, n) := CheckGroup(flags, states, group);
    if err.Some? then err else if n != 1 then Some(NotExactlyOne(group)) else None
  }

  function GroupsError<S>(flags: seq<Flag<S>>, states: seq<S>, groups: seq<seq<string>>): (r: Option<Error>)
    requires |states| == |flags|
    ensures r.Some? ==> r.value.UnknownInGroup? || r.value.NotExactlyOne?
  {
    if groups == [] then None
    else
      var err := GroupsError(flags, states, groups[..|groups| - 1]);
      if err.Some? then err else GroupError(flags, states, groups[|groups| - 1])
  }

  function Validate<S>(cmd: Command<S>, states: seq<S>): Option<Error>
    requires |states| == |cmd.flags|
  {
    var i := FirstUnset(cmd.flags, states);
    if i < |cmd.flags| then Some(MissingRequired(cmd.flags[i].name))
    else GroupsError(cmd.flags, states, cmd.requireOneOf)
  }

  function Finish<S>(g: Place<S>): Outcome<S>
    requires g.Valid()
  {
    if g.args != [] && !g.cmd.acceptsArgs then Failed(g.Frames(), UnexpectedArgs(g.args[0]))
    else
      var err := Validate(g.cmd, g.states);
      if err.Some? then Failed(g.Frames(), err.value) else Finished(g.Frames(), g.args)
  }

  /** The whole parse from a place on; it ends because every move leaves fewer arguments. */
  function Parse<S>(g: Place<S>, args: seq<string>): Outcome<S>
    requires g.Valid()
    decreases |args|
  {
    if args == [] then Finish(g)
    else match Next(g, args)
         case Continue(g', rest) => Parse(g', rest)
         case Halt(o) => o
  }

  // ---------- Validation, stated outright ----------

  ghost predicate IsSet<S>(flags: seq<Flag<S>>, states: seq<S>, name: string)
    requires |states| == |flags|
  {
    var i := Lookup(flags, name);
    i.Some? && flags[i.value].hasValue(states[i.value])
  }

  /** The number of positions in the group whose flag is set. */
  ghost function SetCount<S>(flags: seq<Flag<S>>, states: seq<S>, group: seq<string>): nat
    requires |states| == |flags|
  {
    if group == [] then 0
    else SetCount(flags, states, group[..|group| - 1]) + (if IsSet(flags, states, group[|group| - 1]) then 1 else 0)
  }

  ghost predicate GroupOk<S>(flags: seq<Flag<S>>, states: seq<S>, group: seq<string>)
    requires |states| == |flags|
  {
    && (forall i :: 0 <= i < |group| ==> Lookup(flags, group[i]).Some?)
    && SetCount(flags, states, group) == 1
  }

  lemma {:induction false} CheckGroupCounts<S>(flags: seq<Flag<S>>, states: seq<S>, group: seq<string>)
    requires |states| == |flags|
    ensures CheckGroup(flags, states, group).0.None?
       <==> forall i :: 0 <= i < |group| ==> Lookup(flags, group[i]).Some?
    ensures CheckGroup(flags, states, group).0.None?
        ==> CheckGroup(flags, states, group).1 == SetCount(flags, states, group)
  {
    if group == [] {
    } else {
      var n := |group| - 1;
      CheckGroupCounts(flags, states, group[..n]);
      assert forall i :: 0 <= i < n ==> group[..n][i] == group[i];
    }
  }

  lemma GroupErrorIff<S>(flags: seq<Flag<S>>, states: seq<S>, group: seq<string>)
    requires |states| == |flags|
    ensures GroupError(flags, states, group).None? <==> GroupOk(flags, states, group)
  {
    CheckGroupCounts(flags, states, group);
  }

  lemma {:induction false} GroupsErrorIff<S>(flags: seq<Flag<S>>, states: seq<S>, groups: seq<seq<string>>)
    requires |states| == |flags|
    ensures GroupsError(flags, states, groups).None?
       <==> forall i :: 0 <= i < |groups| ==> GroupOk(flags, states, groups[i])
  {
    if groups == [] {
    } else {
      var n := |groups| - 1;
      GroupsErrorIff(flags, states, groups[..n]);
      GroupErrorIff(flags, states, groups[n]);
      assert forall i :: 0 <= i < n ==> groups[..n][i] == groups[i];
    }
  }

  /** Validation passes if and only if every required flag has a value and every group names
      only known flags of which exactly one is set. */
  lemma ValidateIff<S>(cmd: Command<S>, states: seq<S>)
    requires |states| == |cmd.flags|
    ensures Validate(cmd, states).None? <==>
      && (forall j :: 0 <= j < |cmd.flags| && cmd.flags[j].required ==> cmd.flags[j].hasValue(states[j]))
      && (forall i :: 0 <= i < |cmd.requireOneOf| ==> GroupOk(cmd.flags, states, cmd.requireOneOf[i]))
  {
    GroupsErrorIff(cmd.flags, states, cmd.requireOneOf);
    var i := FirstUnset(cmd.flags, states);
    assert i == |cmd.flags| ==>
      forall j :: 0 <= j < |cmd.flags| && cmd.flags[j].required ==> cmd.flags[j].hasValue(states[j]);
  }

  // ---------- Reading a list in two parts ----------

  /** The last argument is a flag that takes its value from the argument after it. */
  predicate Awaits<S>(g: Place<S>, args: seq<string>)
    requires g.Valid() && args != []
  {
    && |args| == 1 && !g.stop && args[0] != "--" && !IsHelp(args[0]) && !IsVersion(g.cmd, args[0])
    && !IsPositional(args[0])
    && var (name, value) := SplitEq(StripDashes(args[0]));
       var i := Lookup(g.cmd.flags, name);
       i.Some? && !g.cmd.flags[i.value].boolean && value.None?
  }

  datatype Reached<!S> = Ready(g: Place<S>) | Awaiting(g: Place<S>, w: string) | Halted(o: Outcome<S>)

  /** Where a first part of the arguments leads. */
  function Advance<S>(g: Place<S>, pre: seq<string>): (r: Reached<S>)
    requires g.Valid()
    ensures r.Ready? ==> r.g.Valid()
    ensures r.Awaiting? ==> r.g.Valid() && Awaits(r.g, [r.w])
    decreases |pre|
  {
    if pre == [] then Ready(g)
    else if Awaits(g, pre) then Awaiting(g, pre[0])
    else match Next(g, pre)
         case Continue(g', rest) => Advance(g', rest)
         case Halt(o) => Halted(o)
  }

  lemma NextIgnoresTail<S>(g: Place<S>, pre: seq<string>, post: seq<string>)
    requires g.Valid() && pre != [] && !Awaits(g, pre)
    ensures Next(g, pre + post) == match Next(g, pre)
                                   case Continue(g', rest) => Continue(g', rest + post)
                                   case Halt(o) => Halt(o)
  {
    assert (pre + post)[0] == pre[0];
    assert (pre + post)[1..] == pre[1..] + post;
    if |pre| >= 2 { assert (pre + post)[2..] == pre[2..] + post && (pre + post)[1] == pre[1]; }
  }

  /** Parsing a list is parsing its first part and going on from where that leads. */
  lemma {:induction false} ParseInTwo<S>(g: Place<S>, pre: seq<string>, post: seq<string>)
    requires g.Valid()
    ensures match Advance(g, pre)
            case Ready(g') => Parse(g, pre + post) == Parse(g', post)
            case Halted(o) => Parse(g, pre + post) == o
            case Awaiting(g', w) => Parse(g, pre + post) == Parse(g', [w] + post)
    decreases |pre|
  {
    if pre == [] {
      assert pre + post == post;
    } else if Awaits(g, pre) {
      assert pre == [pre[0]];
    } else {
      NextIgnoresTail(g, pre, post);
      match Next(g, pre)
      case Continue(g', rest) => ParseInTwo(g', rest, post);
      case Halt(_) =>
    }
  }

  // ---------- `--f=v` and `--f v` ----------

  lemma {:induction false} SplitEqOf(f: string, v: string)
    requires '=' !in f
    ensures SplitEq(f + "=" + v) == (f, Some(v))
    ensures SplitEq(f) == (f, None)
  {
    if f == "" {
      assert f + "=" + v == "=" + v && ("=" + v)[1..] == v;
    } else {
      assert (f + "=" + v)[1..] == f[1..] + "=" + v;
      SplitEqOf(f[1..], v);
      assert [f[0]] + f[1..] == f;
    }
  }

  /** A flag name as it is typed: dashes, then a name the parser finds again. */
  predicate Spelled(dash: string, f: string)
  {
    && f != "" && '=' !in f
    && (dash == "--" || (dash == "-" && f[0] != '-'))
  }

  lemma StripSpelled(dash: string, f: string, tail: string)
    requires Spelled(dash, f)
    ensures HasPrefix(dash + f + tail, "-") && StripDashes(dash + f + tail) == f + tail
    ensures !IsPositional(dash + f + tail) && dash + f + tail != "--"
  {
    var arg := dash + f + tail;
    if dash == "--" {
      assert arg[..1] == "-" && arg[..2] == "--" && arg[2..] == f + tail;
    } else {
      assert arg[..1] == "-" && arg[1] == f[0] && arg[1..] == f + tail;
      assert arg[..2][1] == arg[1];
    }
  }

  lemma NotAKeyword<S>(cmd: Command<S>, dash: string, f: string, v: string)
    requires Spelled(dash, f)
    ensures !IsHelp(dash + f + "=" + v) && !IsVersion(cmd, dash + f + "=" + v)
  {
    assert '=' in dash + f + "=" + v by { assert (dash + f + "=" + v)[|dash| + |f|] == '='; }
  }

  /** The name is not taken as help or version, and the flag, if there is one, is not boolean. */
  predicate TakesValue<S>(cmd: Command<S>, dash: string, f: string)
  {
    && !IsHelp(dash + f) && !IsVersion(cmd, dash + f)
    && (Lookup(cmd.flags, f).Some? ==> !cmd.flags[Lookup(cmd.flags, f).value].boolean)
  }

  /** What the joined form does: it needs no other argument. */
  function Assign<S>(g: Place<S>, f: string, v: string, rest: seq<string>): Move<S>
    requires g.Valid()
  {
    var i := Lookup(g.cmd.flags, f);
    if i.None? then Halt(Failed(g.Frames(), UnknownFlag(f))) else SetFlag(g, i.value, v, rest)
  }

  lemma JoinedAssigns<S>(g: Place<S>, dash: string, f: string, v: string, rest: seq<string>)
    requires g.Valid() && !g.stop && Spelled(dash, f)
    ensures Next(g, [dash + f + "=" + v] + rest) == Assign(g, f, v, rest)
  {
    SplitEqOf(f, v);
    StripSpelled(dash, f, "=" + v);
    assert dash + f + ("=" + v) == dash + f + "=" + v && f + ("=" + v) == f + "=" + v;
    NotAKeyword(g.cmd, dash, f, v);
    assert ([dash + f + "=" + v] + rest)[1..] == rest;
  }

  lemma SpellingsHere<S>(g: Place<S>, dash: string, f: string, v: string, post: seq<string>)
    requires g.Valid() && !g.stop && Spelled(dash, f) && TakesValue(g.cmd, dash, f)
    ensures Parse(g, [dash + f + "=" + v] + post) == Parse(g, [dash + f, v] + post)
  {
    JoinedAssigns(g, dash, f, v, post);
    var apart := [dash + f, v] + post;
    SplitEqOf(f, v);
    StripSpelled(dash, f, "");
    assert dash + f + "" == dash + f && f + "" == f;
    assert apart[2..] == post && apart[1] == v;
    assert Next(g, apart) == Assign(g, f, v, post);
  }

  /** Anywhere in any argument list where a flag is read: `--f=v` and `--f v` give the same
      flags, positionals and outcome.  (What comes before decides whether a flag is read there:
      it must not stop the parse at `--` nor leave a flag waiting for its value.) */
  lemma SpellingsAgree<S>(cmd: Command<S>, pre: seq<string>, dash: string, f: string, v: string, post: seq<string>)
    requires Spelled(dash, f)
    requires var r := Advance(Start(cmd, []), pre);
             !r.Awaiting? && (r.Ready? ==> !r.g.stop && TakesValue(r.g.cmd, dash, f))
    ensures Parse(Start(cmd, []), pre + [dash + f + "=" + v] + post)
         == Parse(Start(cmd, []), pre + [dash + f, v] + post)
  {
    var g := Start(cmd, []);
    assert pre + [dash + f + "=" + v] + post == pre + ([dash + f + "=" + v] + post);
    assert pre + [dash + f, v] + post == pre + ([dash + f, v] + post);
    ParseInTwo(g, pre, [dash + f + "=" + v] + post);
    ParseInTwo(g, pre, [dash + f, v] + post);
    match Advance(g, pre)
    case Ready(g') => SpellingsHere(g', dash, f, v, post);
    case _ =>
  }

  // ---------- Flags and positionals commute ----------

  lemma PositionalKept<S>(g: Place<S>, p: string, rest: seq<string>)
    requires g.Valid() && !g.stop && g.cmd.subs == [] && IsPositional(p) && p != "help"
    ensures Next(g, [p] + rest) == Continue(g.(args := g.args + [p]), rest)
  {
    assert ([p] + rest)[1..] == rest;
    assert HasPrefix("-h", "-") && HasPrefix("--help", "-") && HasPrefix("-v", "-")
        && HasPrefix("--version", "-") && HasPrefix("--", "-");
  }

  lemma CommuteHere<S>(g: Place<S>, dash: string, f: string, v: string, p: string, post: seq<string>)
    requires g.Valid() && !g.stop && g.cmd.subs == []
    requires Spelled(dash, f) && IsPositional(p) && p != "help"
    ensures Parse(g, [dash + f + "=" + v, p] + post) == Parse(g, [p, dash + f + "=" + v] + post)
  {
    var flag := dash + f + "=" + v;
    assert [flag, p] + post == [flag] + ([p] + post) && [p, flag] + post == [p] + ([flag] + post);
    JoinedAssigns(g, dash, f, v, [p] + post);
    PositionalKept(g, p, [flag] + post);
    JoinedAssigns(g.(args := g.args + [p]), dash, f, v, post);
    match Assign(g, f, v, [p] + post)
    case Continue(h, _) => PositionalKept(h, p, post);
    case Halt(_) =>
  }

  /** In a command without subcommands, a `--f=v` and a positional next to it may change
      places anywhere before `--`. */
  lemma FlagsCommute<S>(cmd: Command<S>, pre: seq<string>, dash: string, f: string, v: string, p: string,
                        post: seq<string>)
    requires Spelled(dash, f) && IsPositional(p) && p != "help"
    requires var r := Advance(Start(cmd, []), pre);
             !r.Awaiting? && (r.Ready? ==> !r.g.stop && r.g.cmd.subs == [])
    ensures Parse(Start(cmd, []), pre + [dash + f + "=" + v, p] + post)
         == Parse(Start(cmd, []), pre + [p, dash + f + "=" + v] + post)
  {
    var g, flag := Start(cmd, []), dash + f + "=" + v;
    assert pre + [flag, p] + post == pre + ([flag, p] + post);
    assert pre + [p, flag] + post == pre + ([p, flag] + post);
    ParseInTwo(g, pre, [flag, p] + post);
    ParseInTwo(g, pre, [p, flag] + post);
    match Advance(g, pre)
    case Ready(g') => CommuteHere(g', dash, f, v, p, post);
    case _ =>
  }

  // ---------- Where rewriting does change the meaning, and `help` ----------

  /** The flag that waits for its value. */
  function Waiting<S>(g: Place<S>, w: string): (i: nat)
    requires g.Valid() && Awaits(g, [w])
    ensures i < |g.cmd.flags|
  {
    Lookup(g.cmd.flags, SplitEq(StripDashes(w)).0).value
  }

  /** The parse that goes on after flag `i` is given its value. */
  function ParseWith<S>(g: Place<S>, i: nat, value: string, rest: seq<string>): Outcome<S>
    requires g.Valid() && i < |g.cmd.flags|
  {
    var s := g.cmd.flags[i].parse(g.states[i], value);
    if s.None? then Failed(g.Frames(), BadValue(g.cmd.flags[i].name))
    else Parse(g.(states := g.states[i := s.value]), rest)
  }

  lemma AwaitedIsValue<S>(g: Place<S>, w: string, value: string, rest: seq<string>)
    requires g.Valid() && Awaits(g, [w])
    ensures Parse(g, [w] + ([value] + rest)) == ParseWith(g, Waiting(g, w), value, rest)
  {
    var args := [w] + ([value] + rest);
    assert args[0] == w && args[1] == value && args[2..] == rest;
    assert Next(g, args) == SetFlag(g, Waiting(g, w), value, rest);
  }

  lemma BehindFlag<S>(cmd: Command<S>, pre: seq<string>, value: string, rest: seq<string>)
    requires Advance(Start(cmd, []), pre).Awaiting?
    ensures var r := Advance(Start(cmd, []), pre);
            Parse(Start(cmd, []), pre + [value] + rest) == ParseWith(r.g, Waiting(r.g, r.w), value, rest)
  {
    var r := Advance(Start(cmd, []), pre);
    assert pre + [value] + rest == pre + ([value] + rest);
    ParseInTwo(Start(cmd, []), pre, [value] + rest);
    AwaitedIsValue(r.g, r.w, value, rest);
  }

  lemma BehindFlagTwo<S>(cmd: Command<S>, pre: seq<string>, value: string, v: string, rest: seq<string>)
    requires Advance(Start(cmd, []), pre).Awaiting?
    ensures var r := Advance(Start(cmd, []), pre);
            Parse(Start(cmd, []), pre + [value, v] + rest) == ParseWith(r.g, Waiting(r.g, r.w), value, [v] + rest)
  {
    assert pre + [value, v] + rest == pre + [value] + ([v] + rest);
    BehindFlag(cmd, pre, value, [v] + rest);
  }

  /** Behind a flag that waits for its value, the joined form is that value as a whole, and
      otherwise `--f` is and `v` is read next.  The two agree when the flag refuses both. */
  lemma SpellingsBehindFlag<S>(cmd: Command<S>, pre: seq<string>, dash: string, f: string, v: string, post: seq<string>)
    requires Advance(Start(cmd, []), pre).Awaiting?
    ensures var r := Advance(Start(cmd, []), pre);
            var i := Waiting(r.g, r.w);
            var parse := (value: string) => r.g.cmd.flags[i].parse(r.g.states[i], value);
            var joined := Parse(Start(cmd, []), pre + [dash + f + "=" + v] + post);
            var apart := Parse(Start(cmd, []), pre + [dash + f, v] + post);
            && joined == ParseWith(r.g, i, dash + f + "=" + v, post)
            && apart == ParseWith(r.g, i, dash + f, [v] + post)
            && (parse(dash + f + "=" + v).None? && parse(dash + f).None? ==> joined == apart)
  {
    BehindFlag(cmd, pre, dash + f + "=" + v, post);
    BehindFlagTwo(cmd, pre, dash + f, v, post);
  }

  /** They differ whenever the flag takes both and `v` is then a positional too many. */
  lemma SpellingsDiffer<S>(cmd: Command<S>, pre: seq<string>, dash: string, f: string, v: string)
    requires Advance(Start(cmd, []), pre).Awaiting? && IsPositional(v) && v != "help"
    requires var r := Advance(Start(cmd, []), pre);
             var i := Waiting(r.g, r.w);
             && r.g.cmd.subs == [] && !r.g.cmd.acceptsArgs && r.g.args == []
             && r.g.cmd.flags[i].parse(r.g.states[i], dash + f + "=" + v).Some?
             && r.g.cmd.flags[i].parse(r.g.states[i], dash + f).Some?
    ensures Parse(Start(cmd, []), pre + [dash + f + "=" + v]) != Parse(Start(cmd, []), pre + [dash + f, v])
  {
    var r := Advance(Start(cmd, []), pre);
    var i := Waiting(r.g, r.w);
    SpellingsBehindFlag(cmd, pre, dash, f, v, []);
    assert pre + [dash + f + "=" + v] + [] == pre + [dash + f + "=" + v];
    assert pre + [dash + f, v] + [] == pre + [dash + f, v];
    var g := r.g.(states := r.g.states[i := r.g.cmd.flags[i].parse(r.g.states[i], dash + f).value]);
    PositionalKept(g, v, []);
    assert Parse(g, [v] + []) == Failed(g.Frames(), UnexpectedArgs(v));
  }

  /** A flag that takes any string. */
  function AnyString(name: string): Flag<string>
  {
    Flag(name, false, false, "", (_: string, v: string) => Some(v), (s: string) => s != "")
  }

  /** Two such flags and no positionals. */
  function TwoFlags(): Command<string>
  {
    Command("c", [], "", false, [AnyString("a"), AnyString("f")], [], [])
  }

  lemma WaitingForA()
    ensures Advance(Start(TwoFlags(), []), ["--a"]) == Awaiting(Start(TwoFlags(), []), "--a")
  {
    SplitEqOf("a", "");
    StripSpelled("--", "a", "");
    assert "--" + "a" + "" == "--a" && "a" + "" == "a";
    assert TwoFlags().flags[..1] == [AnyString("a")];
    assert Lookup(TwoFlags().flags, "a") == Some(0);
  }

  lemma DifferingCommand()
    ensures Parse(Start(TwoFlags(), []), ["--a", "--f=v"]) != Parse(Start(TwoFlags(), []), ["--a", "--f", "v"])
  {
    WaitingForA();
    SpellingsDiffer(TwoFlags(), ["--a"], "--", "f", "v");
    assert "--" + "f" + "=" + "v" == "--f=v" && "--" + "f" == "--f";
    assert ["--a"] + ["--f=v"] == ["--a", "--f=v"] && ["--a"] + ["--f", "v"] == ["--a", "--f", "v"];
  }

  /** `help`, `-h` and `--help` are always help on the current command: the pattern
      `help <command>` is never looked at. */
  lemma HelpIsOwnHelp<S>(cmd: Command<S>, pre: seq<string>, h: string, post: seq<string>)
    requires h == "help" || h == "-h" || h == "--help"
    requires var r := Advance(Start(cmd, []), pre); r.Ready? && !r.g.stop
    ensures Parse(Start(cmd, []), pre + [h] + post) == Help(Advance(Start(cmd, []), pre).g.Frames())
  {
    assert pre + [h] + post == pre + ([h] + post);
    ParseInTwo(Start(cmd, []), pre, [h] + post);
  }

  /** `-v` and `--version` show the version of a command that has one. */
  lemma VersionIsShown<S>(cmd: Command<S>, pre: seq<string>, v: string, post: seq<string>)
    requires v == "-v" || v == "--version"
    requires var r := Advance(Start(cmd, []), pre); r.Ready? && !r.g.stop && r.g.cmd.version != ""
    ensures Parse(Start(cmd, []), pre + [v] + post) == Version(Advance(Start(cmd, []), pre).g.Frames())
  {
    assert pre + [v] + post == pre + ([v] + post);
    ParseInTwo(Start(cmd, []), pre, [v] + post);
  }

  /** Behind `--` every argument is a positional, whatever it looks like; so there the joined
      form is one positional and the other form two. */
  lemma {:induction false} AfterSeparator<S>(g: Place<S>, args: seq<string>)
    requires g.Valid() && g.stop
    ensures Parse(g, args) == Finish(g.(args := g.args + args))
    decreases |args|
  {
    if args == [] {
      assert g.args + args == g.args;
    } else {
      var g' := g.(args := g.args + [args[0]]);
      AfterSeparator(g', args[1..]);
      assert g'.args + args[1..] == g.args + args;
    }
  }

  /** Behind `--` the two forms give the same outcome if and only if the positionals do not show
      in it: an earlier one is refused already, or positionals are accepted and validation
      fails. */
  lemma SpellingsAfterSeparator<S>(g: Place<S>, dash: string, f: string, v: string, post: seq<string>)
    requires g.Valid() && g.stop
    ensures Parse(g, [dash + f + "=" + v] + post) == Parse(g, [dash + f, v] + post)
       <==> if g.cmd.acceptsArgs then Validate(g.cmd, g.states).Some? else g.args != []
  {
    var joined, apart := [dash + f + "=" + v] + post, [dash + f, v] + post;
    AfterSeparator(g, joined);
    AfterSeparator(g, apart);
    assert |g.args + joined| + 1 == |g.args + apart|;
    if g.args == [] {
      assert (g.args + joined)[0] == dash + f + "=" + v && (g.args + apart)[0] == dash + f;
      assert |dash + f + "=" + v| > |dash + f|;
    } else {
      assert (g.args + joined)[0] == g.args[0] == (g.args + apart)[0];
    }
  }
}

/** The parser as the source runs it: a loop over an index that a flag may move. */
module Cli {
  import opened Common
  import opened CliModel
  import M = CliModel

  /** The map finds for every name the flag that the command has for it. */
  ghost predicate IsFlagMap<S>(flags: seq<Flag<S>>, m: map<string, nat>)
  {
    forall name :: Lookup(flags, name) == if name in m then Some(m[name]) else None
  }

  method InitFlagMap<S>(flags: seq<Flag<S>>) returns (m: map<string, nat>)
    ensures IsFlagMap(flags, m)
  {
    m := map[];
    for i := 0 to |flags|
      invariant IsFlagMap(flags[..i], m)
    {
      assert flags[..i + 1][..i] == flags[..i];
      m := m[flags[i].name := i];
    }
    assert flags[..|flags|] == flags;
  }

  /** Parses the flag at index i; i' is the index of the last argument it used up. */
  method ParseFlag<S>(g: Place<S>, m: map<string, nat>, args: seq<string>, i: nat)
    returns (err: Option<Error>, states: seq<S>, i': nat)
    requires g.Valid() && i < |args| && HasPrefix(args[i], "-")
    requires IsFlagMap(g.cmd.flags, m)
    ensures |states| == |g.states| && i <= i' < |args|
    ensures M.ParseFlag(g, args[i..]) == if err.Some? then Halt(Failed(g.Frames(), err.value))
                                         else Continue(g.(states := states), args[i' + 1..])
  {
    i', states := i, g.states;
    assert args[i..][0] == args[i] && args[i..][1..] == args[i + 1..];
    var arg := args[i];
    var flagName := if HasPrefix(arg, "--") then arg[2..] else arg[1..];
    var split := SplitEq(flagName);
    if split.0 !in m {
      assert Lookup(g.cmd.flags, split.0).None?;
      return Some(UnknownFlag(split.0)), states, i';
    }
    assert Lookup(g.cmd.flags, split.0) == Some(m[split.0]);
    var flag := g.cmd.flags[m[split.0]];
    var value := "";
    if split.1.Some? {
      value := split.1.value;
    } else if !flag.boolean {
      if i + 1 >= |args| {
        return Some(NeedsValue(split.0)), states, i';
      }
      i' := i + 1;
      value := args[i'];
      assert args[i..][1] == args[i + 1] && args[i..][2..] == args[i + 2..];
    }
    var s := flag.parse(states[m[split.0]], value);
    if s.None? {
      return Some(BadValue(flag.name)), states, i';
    }
    err, states := None, states[m[split.0] := s.value];
  }

  method FindSubcommand<S>(subs: seq<Command<S>>, arg: string) returns (k: nat)
    ensures k == FindSub(subs, arg)
  {
    k := 0;
    while k < |subs| && !(subs[k].name == arg || arg in subs[k].aliases)
      invariant 0 <= k <= |subs|
      invariant FindSub(subs, arg) == k + FindSub(subs[k..], arg)
    {
      assert subs[k..][1..] == subs[k + 1..];
      k := k + 1;
    }
  }

  method ValidateRequiredFlags<S>(cmd: Command<S>, m: map<string, nat>, states: seq<S>) returns (err: Option<Error>)
    requires |states| == |cmd.flags|
    requires IsFlagMap(cmd.flags, m)
    ensures err == Validate(cmd, states)
  {
    for i := 0 to |cmd.flags|
      invariant FirstUnset(cmd.flags, states) == i + FirstUnset(cmd.flags[i..], states[i..])
    {
      if cmd.flags[i].required && !cmd.flags[i].hasValue(states[i]) {
        return Some(MissingRequired(cmd.flags[i].name));
      }
      assert cmd.flags[i..][1..] == cmd.flags[i + 1..] && states[i..][1..] == states[i + 1..];
    }
    for j := 0 to |cmd.requireOneOf|
      invariant GroupsError(cmd.flags, states, cmd.requireOneOf[..j]).None?
    {
      var groups := cmd.requireOneOf;
      assert groups[..j + 1][..j] == groups[..j];
      err := GroupCheck(cmd.flags, m, states, groups[j]);
      if err.Some? {
        GroupsErrorStays(cmd.flags, states, groups, j + 1);
        return err;
      }
    }
    assert cmd.requireOneOf[..|cmd.requireOneOf|] == cmd.requireOneOf;
    return None;
  }

  method GroupCheck<S>(flags: seq<Flag<S>>, m: map<string, nat>, states: seq<S>, group: seq<string>)
    returns (err: Option<Error>)
    requires |states| == |flags|
    requires IsFlagMap(flags, m)
    ensures err == GroupError(flags, states, group)
  {
    var n := 0;
    for i := 0 to |group|
      invariant CheckGroup(flags, states, group[..i]) == (None, n)
    {
      assert group[..i + 1][..i] == group[..i];
      if group[i] !in m {
        assert Lookup(flags, group[i]).None?;
        CheckGroupStays(flags, states, group, i + 1);
        return Some(UnknownInGroup(group[i]));
      }
      assert Lookup(flags, group[i]) == Some(m[group[i]]);
      if flags[m[group[i]]].hasValue(states[m[group[i]]]) {
        n := n + 1;
      }
    }
    assert group[..|group|] == group;
    if n != 1 {
      return Some(NotExactlyOne(group));
    }
    return None;
  }

  lemma {:induction false} CheckGroupStays<S>(flags: seq<Flag<S>>, states: seq<S>, group: seq<string>, i: nat)
    requires |states| == |flags| && i <= |group| && CheckGroup(flags, states, group[..i]).0.Some?
    ensures CheckGroup(flags, states, group).0 == CheckGroup(flags, states, group[..i]).0
    decreases |group|
  {
    if i == |group| {
      assert group[..i] == group;
    } else {
      assert group[..|group| - 1][..i] == group[..i];
      CheckGroupStays(flags, states, group[..|group| - 1], i);
    }
  }

  lemma {:induction false} GroupsErrorStays<S>(flags: seq<Flag<S>>, states: seq<S>, groups: seq<seq<string>>, i: nat)
    requires |states| == |flags| && i <= |groups| && GroupsError(flags, states, groups[..i]).Some?
    ensures GroupsError(flags, states, groups) == GroupsError(flags, states, groups[..i])
    decreases |groups|
  {
    if i == |groups| {
      assert groups[..i] == groups;
    } else {
      assert groups[..|groups| - 1][..i] == groups[..i];
      GroupsErrorStays(flags, states, groups[..|groups| - 1], i);
    }
  }

  /** All arguments are read: refuses stray positionals and validates the flags. */
  method Conclude<S>(g: Place<S>, m: map<string, nat>) returns (o: Outcome<S>)
    requires g.Valid()
    requires IsFlagMap(g.cmd.flags, m)
    ensures o == Parse(g, [])
  {
    if |g.args| > 0 && !g.cmd.acceptsArgs {
      return Failed(g.Frames(), UnexpectedArgs(g.args[0]));
    }
    var err := ValidateRequiredFlags(g.cmd, m, g.states);
    if err.Some? {
      return Failed(g.Frames(), err.value);
    }
    return Finished(g.Frames(), g.args);
  }

  /** What one turn of the loop comes to: it goes on behind index i, hands over to the k-th
      subcommand, or ends the parse. */
  datatype Turn<!S> = Stays(g: Place<S>, i: nat) | Descends(k: nat) | Ends(o: Outcome<S>)

  /** The turn `t` at index i is the next move. */
  ghost predicate Follows<S>(g: Place<S>, args: seq<string>, i: nat, t: Turn<S>)
    requires g.Valid() && i < |args|
  {
    match t
    case Stays(g', i') =>
      g'.Valid() && g'.cmd == g.cmd && i <= i' < |args| && Next(g, args[i..]) == Continue(g', args[i' + 1..])
    case Descends(k) =>
      k < |g.cmd.subs| && Next(g, args[i..]) == Continue(Start(g.cmd.subs[k], g.Frames()), args[i + 1..])
    case Ends(o) => Next(g, args[i..]) == Halt(o)
  }

  /** So it leaves the outcome as it is. */
  lemma FollowsKeepsOutcome<S>(g: Place<S>, args: seq<string>, i: nat, t: Turn<S>)
    requires g.Valid() && i < |args| && Follows(g, args, i, t)
    ensures Parse(g, args[i..]) == match t
                                   case Stays(g', i') => Parse(g', args[i' + 1..])
                                   case Descends(k) => Parse(Start(g.cmd.subs[k], g.Frames()), args[i + 1..])
                                   case Ends(o) => o
  {
  }

  /** An argument that is read as a flag. */
  method ReadFlag<S>(g: Place<S>, m: map<string, nat>, args: seq<string>, i: nat) returns (t: Turn<S>)
    requires g.Valid() && i < |args| && IsFlagMap(g.cmd.flags, m)
    requires args[i] != "--" && !g.stop && !IsHelp(args[i]) && !IsVersion(g.cmd, args[i]) && !IsPositional(args[i])
    ensures Follows(g, args, i, t)
  {
    assert args[i..][0] == args[i];
    var err, states, i' := ParseFlag(g, m, args, i);
    if err.Some? {
      return Ends(Failed(g.Frames(), err.value));
    }
    return Stays(g.(states := states), i');
  }

  /** An argument that is no flag: a subcommand's name, or a positional. */
  method ReadPositional<S>(g: Place<S>, args: seq<string>, i: nat) returns (t: Turn<S>)
    requires g.Valid() && i < |args|
    requires args[i] != "--" && !g.stop && !IsHelp(args[i]) && !IsVersion(g.cmd, args[i]) && IsPositional(args[i])
    ensures Follows(g, args, i, t)
  {
    var arg := args[i];
    assert args[i..][0] == arg && args[i..][1..] == args[i + 1..];
    var k := FindSubcommand(g.cmd.subs, arg);
    if k < |g.cmd.subs| {
      return Descends(k);
    }
    if |g.cmd.subs| > 0 {
      return Ends(Failed(g.Frames(), UnknownCommand(arg)));
    }
    return Stays(g.(args := g.args + [arg]), i);
  }

  /** One turn of the loop, on the argument at index i. */
  method ReadArgument<S>(g: Place<S>, m: map<string, nat>, args: seq<string>, i: nat) returns (t: Turn<S>)
    requires g.Valid() && i < |args|
    requires IsFlagMap(g.cmd.flags, m)
    ensures Follows(g, args, i, t)
  {
    var arg := args[i];
    assert args[i..][0] == arg && args[i..][1..] == args[i + 1..];
    if arg == "--" && !g.stop {
      return Stays(g.(stop := true), i);
    }
    if g.stop {
      return Stays(g.(args := g.args + [arg]), i);
    }
    if arg == "-h" || arg == "--help" || arg == "help" {
      return Ends(Help(g.Frames()));
    }
    if (arg == "-v" || arg == "--version") && g.cmd.version != "" {
      return Ends(Version(g.Frames()));
    }
    if !HasPrefix(arg, "-") || arg == "-" {
      t := ReadPositional(g, args, i);
      return;
    }
    t := ReadFlag(g, m, args, i);
  }

  /** Standing at `g` behind the first i arguments, the parse comes to `whole`. */
  ghost predicate ComesTo<S>(g: Place<S>, args: seq<string>, i: nat, whole: Outcome<S>)
  {
    g.Valid() && i <= |args| && Parse(g, args[i..]) == whole
  }

  /** The same within command `cmd`, whose flag map is `m`. */
  ghost predicate InCommand<S>(cmd: Command<S>, m: map<string, nat>, g: Place<S>, args: seq<string>, i: nat,
                               whole: Outcome<S>)
  {
    g.cmd == cmd && IsFlagMap(cmd.flags, m) && ComesTo(g, args, i, whole)
  }

  ghost predicate HandsOver<S>(cmd: Command<S>, g: Place<S>, k: nat, args: seq<string>, i: nat, whole: Outcome<S>)
  {
    g.cmd == cmd && k < |cmd.subs| && ComesTo(Start(cmd.subs[k], g.Frames()), args, i + 1, whole)
  }

  /** One turn keeps the outcome. */
  method TakeTurn<S>(ghost cmd: Command<S>, g: Place<S>, m: map<string, nat>, args: seq<string>, i: nat,
                     ghost whole: Outcome<S>) returns (t: Turn<S>)
    requires i < |args| && InCommand(cmd, m, g, args, i, whole)
    ensures t.Stays? ==> i <= t.i < |args| && InCommand(cmd, m, t.g, args, t.i + 1, whole)
    ensures t.Descends? ==> HandsOver(cmd, g, t.k, args, i, whole)
    ensures t.Ends? ==> t.o == whole
  {
    t := ReadArgument(g, m, args, i);
    FollowsKeepsOutcome(g, args, i, t);
  }

  /** The loop: reads arguments until they are used up, a subcommand takes over, or the parse
      ends.  It stands at `last`, behind index `i`, and `whole` is the outcome throughout. */
  method ReadArguments<S>(ghost cmd: Command<S>, g: Place<S>, m: map<string, nat>, args: seq<string>,
                          ghost whole: Outcome<S>) returns (last: Place<S>, i: nat, t: Turn<S>)
    requires InCommand(cmd, m, g, args, 0, whole)
    ensures t.Stays? ==> i == |args| && InCommand(cmd, m, last, args, i, whole)
    ensures t.Descends? ==> i < |args| && HandsOver(cmd, last, t.k, args, i, whole)
    ensures t.Ends? ==> t.o == whole
  {
    last, i, t := g, 0, Stays(g, 0);
    while i < |args|
      invariant i <= |args| && t.Stays?
      invariant InCommand(cmd, m, last, args, i, whole)
      decreases |args| - i
    {
      t := TakeTurn(cmd, last, m, args, i, whole);
      if !t.Stays? {
        return;
      }
      last, i := t.g, t.i + 1;
    }
  }

  /** Parses the arguments of one command; a subcommand name hands the rest on. */
  method ParseCommand<S>(cmd: Command<S>, above: seq<Frame<S>>, args: seq<string>) returns (o: Outcome<S>)
    ensures o == Parse(Start(cmd, above), args)
    decreases |args|
  {
    var m := InitFlagMap(cmd.flags);
    var g := Start(cmd, above);
    assert args[0..] == args;
    var last, i, t := ReadArguments(cmd, g, m, args, Parse(g, args));
    match t {
      case Stays(_, _) =>
        assert args[i..] == [];
        o := Conclude(last, m);
      case Descends(k) => o := ParseCommand(cmd.subs[k], last.Frames(), args[i + 1..]);
      case Ends(end) => o := end;
    }
  }
}
