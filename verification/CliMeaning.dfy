/** What the command-line parser (pkg/cli/parser.go) makes of a whole command line: how a parse
    ends, and that a line is parsed to what its tokens mean.
  */
module CliMeaning {
  import opened Common
  import opened CliModel

  // ---------- How a parse ends ----------

  /** Flag j is required and has no value. */
  ghost predicate Unset<S>(g: Place<S>, j: nat)
    requires g.Valid()
  {
    j < |g.cmd.flags| && g.cmd.flags[j].required && !g.cmd.flags[j].hasValue(g.states[j])
  }

  ghost predicate BadGroup<S>(g: Place<S>, i: nat)
    requires g.Valid()
  {
    i < |g.cmd.requireOneOf| && !GroupOk(g.cmd.flags, g.states, g.cmd.requireOneOf[i])
  }

  /** What is wrong with a group: its first unknown name, or that not exactly one flag is set. */
  ghost predicate GroupComplaint<S>(flags: seq<Flag<S>>, group: seq<string>, e: Error)
  {
    if exists j :: 0 <= j < |group| && Lookup(flags, group[j]).None? then
      exists j :: 0 <= j < |group| && Lookup(flags, group[j]).None? && e == UnknownInGroup(group[j])
                  && forall k :: 0 <= k < j ==> Lookup(flags, group[k]).Some?
    else
      e == NotExactlyOne(group)
  }

  lemma {:induction false} CheckGroupNames<S>(flags: seq<Flag<S>>, states: seq<S>, group: seq<string>)
    requires |states| == |flags| && CheckGroup(flags, states, group).0.Some?
    ensures GroupComplaint(flags, group, CheckGroup(flags, states, group).0.value)
    ensures exists j :: 0 <= j < |group| && Lookup(flags, group[j]).None?
  {
    var n := |group| - 1;
    var front := group[..n];
    CheckGroupCounts(flags, states, front);
    if CheckGroup(flags, states, front).0.Some? {
      CheckGroupNames(flags, states, front);
      var e := CheckGroup(flags, states, front).0.value;
      var j :| 0 <= j < |front| && Lookup(flags, front[j]).None? && e == UnknownInGroup(front[j])
               && forall k :: 0 <= k < j ==> Lookup(flags, front[k]).Some?;
      assert group[j] == front[j] && forall k :: 0 <= k < j ==> group[k] == front[k];
    } else {
      assert forall k :: 0 <= k < n ==> group[k] == front[k];
      assert Lookup(flags, group[n]).None?;
    }
  }

  lemma GroupErrorNames<S>(flags: seq<Flag<S>>, states: seq<S>, group: seq<string>)
    requires |states| == |flags| && !GroupOk(flags, states, group)
    ensures GroupError(flags, states, group).Some?
    ensures GroupComplaint(flags, group, GroupError(flags, states, group).value)
  {
    GroupErrorIff(flags, states, group);
    CheckGroupCounts(flags, states, group);
    if CheckGroup(flags, states, group).0.Some? { CheckGroupNames(flags, states, group); }
  }

  lemma {:induction false} FirstBadGroup<S>(flags: seq<Flag<S>>, states: seq<S>, groups: seq<seq<string>>, i: nat)
    requires |states| == |flags| && i < |groups| && !GroupOk(flags, states, groups[i])
    requires forall k :: 0 <= k < i ==> GroupOk(flags, states, groups[k])
    ensures GroupsError(flags, states, groups).Some?
    ensures GroupComplaint(flags, groups[i], GroupsError(flags, states, groups).value)
    decreases |groups|
  {
    var n := |groups| - 1;
    if i == n {
      GroupsErrorIff(flags, states, groups[..n]);
      GroupErrorNames(flags, states, groups[n]);
    } else {
      FirstBadGroup(flags, states, groups[..n], i);
    }
  }

  /** With all arguments read, the first of these decides the outcome: a positional where none
      is accepted, the first required flag without a value, the first group that does not have
      exactly one of its flags set.  Only where there is none of them the command runs, with
      the positionals. */
  lemma HowItEnds<S>(g: Place<S>)
    requires g.Valid()
    ensures var o := Parse(g, []);
            if g.args != [] && !g.cmd.acceptsArgs then o == Failed(g.Frames(), UnexpectedArgs(g.args[0]))
            else if exists j: nat :: Unset(g, j) then
              exists j: nat :: Unset(g, j) && (forall k :: 0 <= k < j ==> !Unset(g, k))
                          && o == Failed(g.Frames(), MissingRequired(g.cmd.flags[j].name))
            else if exists i: nat :: BadGroup(g, i) then
              exists i: nat :: BadGroup(g, i) && (forall k :: 0 <= k < i ==> !BadGroup(g, k)) && o.Failed?
                          && o.frames == g.Frames() && GroupComplaint(g.cmd.flags, g.cmd.requireOneOf[i], o.error)
            else o == Finished(g.Frames(), g.args)
  {
    var j := FirstUnset(g.cmd.flags, g.states);
    if j < |g.cmd.flags| {
      assert Unset(g, j);
    } else {
      assert forall k: nat :: !Unset(g, k);
      GroupsErrorIff(g.cmd.flags, g.states, g.cmd.requireOneOf);
      if i: nat :| BadGroup(g, i) {
        var first := Least(g, i);
        forall k | 0 <= k < first ensures GroupOk(g.cmd.flags, g.states, g.cmd.requireOneOf[k]) {
          assert !BadGroup(g, k);
        }
        FirstBadGroup(g.cmd.flags, g.states, g.cmd.requireOneOf, first);
      } else {
        forall k | 0 <= k < |g.cmd.requireOneOf| ensures GroupOk(g.cmd.flags, g.states, g.cmd.requireOneOf[k]) {
          assert !BadGroup(g, k);
        }
      }
    }
  }

  lemma {:induction false} Least<S>(g: Place<S>, i: nat) returns (first: nat)
    requires g.Valid() && BadGroup(g, i)
    ensures BadGroup(g, first) && forall k :: 0 <= k < first ==> !BadGroup(g, k)
  {
    if k: nat :| k < i && BadGroup(g, k) { first := Least(g, k); } else { first := i; }
  }

  // ---------- What a command line means ----------

  /** What someone means by an argument, or two. */
  datatype Token =
    | Joined(dash: string, f: string, v: string)    // --f=v
    | Spaced(dash: string, f: string, v: string)    // --f v
    | Switch(dash: string, f: string)               // --f
    | Word(p: string)                               // a subcommand's name, or a positional

  /** What tokens lead to: a place, or an outcome already. */
  datatype Meaning<!S> = Leads(g: Place<S>) | Stops(o: Outcome<S>)

  function Typed(t: Token): seq<string>
  {
    match t
    case Joined(dash, f, v) => [dash + f + "=" + v]
    case Spaced(dash, f, v) => [dash + f, v]
    case Switch(dash, f) => [dash + f]
    case Word(p) => [p]
  }

  function Line(ts: seq<Token>): seq<string>
  {
    if ts == [] then [] else Typed(ts[0]) + Line(ts[1..])
  }

  /** The token can be typed so in this command: a value of its own only for a flag that takes
      one, a switch only for one that does not, and neither `help` nor the version flag. */
  ghost predicate CanType<S>(cmd: Command<S>, t: Token)
  {
    match t
    case Joined(dash, f, _) => Spelled(dash, f)
    case Spaced(dash, f, _) => Spelled(dash, f) && TakesValue(cmd, dash, f)
    case Switch(dash, f) =>
      && Spelled(dash, f) && !IsHelp(dash + f) && !IsVersion(cmd, dash + f)
      && Lookup(cmd.flags, f).Some? && cmd.flags[Lookup(cmd.flags, f).value].boolean
    case Word(p) => (p == "-" || !HasPrefix(p, "-")) && p != "help"
  }

  /** What a flag and its value come to. */
  function Assigned<S>(g: Place<S>, f: string, v: string): (r: Meaning<S>)
    requires g.Valid()
    ensures r.Leads? ==> r.g.Valid()
  {
    var i := Lookup(g.cmd.flags, f);
    if i.None? then Stops(Failed(g.Frames(), UnknownFlag(f)))
    else
      var s := g.cmd.flags[i.value].parse(g.states[i.value], v);
      if s.None? then Stops(Failed(g.Frames(), BadValue(f)))
      else Leads(g.(states := g.states[i.value := s.value]))
  }

  /** What the token means to the command: the flag takes the value, a switch the empty one; a
      word opens the first subcommand of that name, or is a positional of a command that has no
      subcommands. */
  function Meant<S>(g: Place<S>, t: Token): (r: Meaning<S>)
    requires g.Valid()
    ensures r.Leads? ==> r.g.Valid()
  {
    match t
    case Joined(_, f, v) => Assigned(g, f, v)
    case Spaced(_, f, v) => Assigned(g, f, v)
    case Switch(_, f) => Assigned(g, f, "")
    case Word(p) =>
      var k := FindSub(g.cmd.subs, p);
      if k < |g.cmd.subs| then
        Leads(Place(g.cmd.subs[k], g.above + [Frame(g.cmd.name, g.states)], Initial(g.cmd.subs[k].flags), [], false))
      else if g.cmd.subs == [] then Leads(g.(args := g.args + [p]))
      else Stops(Failed(g.Frames(), UnknownCommand(p)))
  }

  /** The meaning of all tokens. */
  function AllMeant<S>(g: Place<S>, ts: seq<Token>): (r: Meaning<S>)
    requires g.Valid()
    ensures r.Leads? ==> r.g.Valid()
    decreases |ts|
  {
    if ts == [] then Leads(g)
    else
      var r := Meant(g, ts[0]);
      if r.Stops? then r else AllMeant(r.g, ts[1..])
  }

  /** Each can be typed where it stands. */
  ghost predicate CanTypeAll<S>(g: Place<S>, ts: seq<Token>)
    requires g.Valid()
    decreases |ts|
  {
    ts == [] || (CanType(g.cmd, ts[0]) && var r := Meant(g, ts[0]); r.Leads? ==> CanTypeAll(r.g, ts[1..]))
  }

  /** The move that reads a token. */
  lemma ReadsToken<S>(g: Place<S>, t: Token, rest: seq<string>)
    requires g.Valid() && !g.stop && CanType(g.cmd, t)
    ensures var r := Meant(g, t);
            Parse(g, Typed(t) + rest) == (if r.Stops? then r.o else Parse(r.g, rest)) && (r.Leads? ==> !r.g.stop)
  {
    match t
    case Joined(dash, f, v) => JoinedAssigns(g, dash, f, v, rest);
    case Spaced(dash, f, v) =>
      SpellingsHere(g, dash, f, v, rest);
      JoinedAssigns(g, dash, f, v, rest);
    case Switch(dash, f) => SwitchAssigns(g, dash, f, rest);
    case Word(p) => ReadsWord(g, p, rest);
  }

  lemma SwitchAssigns<S>(g: Place<S>, dash: string, f: string, rest: seq<string>)
    requires g.Valid() && !g.stop && CanType(g.cmd, Switch(dash, f))
    ensures Next(g, [dash + f] + rest) == Assign(g, f, "", rest)
  {
    SplitEqOf(f, "");
    StripSpelled(dash, f, "");
    assert dash + f + "" == dash + f && f + "" == f;
    assert ([dash + f] + rest)[1..] == rest;
  }

  lemma ReadsWord<S>(g: Place<S>, p: string, rest: seq<string>)
    requires g.Valid() && !g.stop && IsPositional(p) && p != "help"
    ensures var r := Meant(g, Word(p)); Parse(g, [p] + rest) == if r.Stops? then r.o else Parse(r.g, rest)
  {
    assert ([p] + rest)[1..] == rest;
    assert HasPrefix("-h", "-") && HasPrefix("--help", "-") && HasPrefix("-v", "-")
        && HasPrefix("--version", "-") && HasPrefix("--", "-");
  }

  /** A command line is parsed to what it means, for every command and every list of tokens, in
      whatever spelling; `rest` may follow. */
  lemma {:induction false} ParseMeans<S>(g: Place<S>, ts: seq<Token>, rest: seq<string>)
    requires g.Valid() && !g.stop && CanTypeAll(g, ts)
    ensures var r := AllMeant(g, ts);
            Parse(g, Line(ts) + rest) == (if r.Stops? then r.o else Parse(r.g, rest)) && (r.Leads? ==> !r.g.stop)
    decreases |ts|
  {
    if ts == [] {
      assert [] + rest == rest;
    } else {
      ConcatAssociative(Typed(ts[0]), Line(ts[1..]), rest);
      ReadsToken(g, ts[0], Line(ts[1..]) + rest);
      var r := Meant(g, ts[0]);
      if r.Leads? { ParseMeans(r.g, ts[1..], rest); }
    }
  }

  /** A `--` ends it: whatever follows are positionals, and the parse ends with them. */
  lemma ParseMeansUpToSeparator<S>(g: Place<S>, ts: seq<Token>, xs: seq<string>)
    requires g.Valid() && !g.stop && CanTypeAll(g, ts)
    ensures var r := AllMeant(g, ts);
            Parse(g, Line(ts) + (["--"] + xs))
            == if r.Stops? then r.o else Finish(r.g.(args := r.g.args + xs, stop := true))
  {
    ParseMeans(g, ts, ["--"] + xs);
    var r := AllMeant(g, ts);
    if r.Leads? {
      assert (["--"] + xs)[0] == "--" && (["--"] + xs)[1..] == xs;
      AfterSeparator(r.g.(stop := true), xs);
    }
  }

  /** A flag that takes a value and is the last argument is an error. */
  lemma MissingValue<S>(cmd: Command<S>, pre: seq<string>)
    requires Advance(Start(cmd, []), pre).Awaiting?
    ensures var r := Advance(Start(cmd, []), pre);
            Parse(Start(cmd, []), pre) == Failed(r.g.Frames(), NeedsValue(SplitEq(StripDashes(r.w)).0))
  {
    var r := Advance(Start(cmd, []), pre);
    ParseInTwo(Start(cmd, []), pre, []);
    assert pre + [] == pre && [r.w] + [] == [r.w];
  }

  // What a command without subcommands is left with: the words, and each flag with all its values.

  function WordOf(t: Token): seq<string> { if t.Word? then [t.p] else [] }

  function Words(ts: seq<Token>): seq<string>
  {
    if ts == [] then [] else WordOf(ts[0]) + Words(ts[1..])
  }

  function ValueOf(t: Token, f: string): seq<string>
  {
    if t.Word? || t.f != f then [] else if t.Switch? then [""] else [t.v]
  }

  /** The values given to the flag called `f`, in order. */
  function ValuesOf(ts: seq<Token>, f: string): seq<string>
  {
    if ts == [] then [] else ValueOf(ts[0], f) + ValuesOf(ts[1..], f)
  }

  /** The state after the flag has been given the values one after the other. */
  function AfterValues<S>(flag: Flag<S>, s: S, vs: seq<string>): Option<S>
  {
    if vs == [] then Some(s)
    else
      var s' := flag.parse(s, vs[0]);
      if s'.None? then None else AfterValues(flag, s'.value, vs[1..])
  }

  /** The flag that the name means: the last of that name. */
  ghost predicate IsFlagOf<S>(cmd: Command<S>, i: nat)
  {
    i < |cmd.flags| && forall j :: i < j < |cmd.flags| ==> cmd.flags[j].name != cmd.flags[i].name
  }

  lemma {:induction false} LookupIs<S>(flags: seq<Flag<S>>, i: nat)
    requires i < |flags| && forall j :: i < j < |flags| ==> flags[j].name != flags[i].name
    ensures Lookup(flags, flags[i].name) == Some(i)
  {
  }

  lemma MeantStates<S>(g: Place<S>, t: Token, i: nat)
    requires g.Valid() && g.cmd.subs == [] && IsFlagOf(g.cmd, i) && Meant(g, t).Leads?
    ensures var end := Meant(g, t).g;
            var f := g.cmd.flags[i];
            && end.cmd == g.cmd && end.above == g.above && end.args == g.args + WordOf(t)
            && Some(end.states[i]) == AfterValues(f, g.states[i], ValueOf(t, f.name))
  {
    LookupIs(g.cmd.flags, i);
    assert g.args + [] == g.args;
  }

  lemma {:induction false} AfterValuesInTwo<S>(flag: Flag<S>, s: S, vs: seq<string>, ws: seq<string>)
    requires AfterValues(flag, s, vs).Some?
    ensures AfterValues(flag, s, vs + ws) == AfterValues(flag, AfterValues(flag, s, vs).value, ws)
  {
    if vs == [] {
      assert vs + ws == ws;
    } else {
      assert (vs + ws)[1..] == vs[1..] + ws;
      AfterValuesInTwo(flag, flag.parse(s, vs[0]).value, vs[1..], ws);
    }
  }

  /** So where nothing is refused, the positionals are the words in order, and every flag has been
      given exactly its own values, in order, whatever stood between them. */
  lemma {:induction false} FlagsAndWords<S>(g: Place<S>, ts: seq<Token>, i: nat)
    requires g.Valid() && g.cmd.subs == [] && IsFlagOf(g.cmd, i) && AllMeant(g, ts).Leads?
    ensures var end := AllMeant(g, ts).g;
            var f := g.cmd.flags[i];
            && end.cmd == g.cmd && end.above == g.above && end.args == g.args + Words(ts)
            && Some(end.states[i]) == AfterValues(f, g.states[i], ValuesOf(ts, f.name))
    decreases |ts|
  {
    if ts == [] {
      assert g.args + [] == g.args;
    } else {
      var f := g.cmd.flags[i];
      MeantStates(g, ts[0], i);
      FlagsAndWords(Meant(g, ts[0]).g, ts[1..], i);
      AfterValuesInTwo(f, g.states[i], ValueOf(ts[0], f.name), ValuesOf(ts[1..], f.name));
      ConcatAssociative(g.args, WordOf(ts[0]), Words(ts[1..]));
    }
  }
}
