/** At most one Spotify loopback, whichever commands fail. */
module SpotifyRuns {
  import opened Wrappers
  import opened Decimals
  import opened Sequences
  import opened Whitespace
  import opened SpotifyRoute

  /** The server's numbers are numbers. */
  ghost predicate Numbered(modules: seq<Module>) {
    forall i :: 0 <= i < |modules| ==> IsU64(modules[i].id)
  }

  ghost predicate AtMostOne(s: Server) {
    Numbered(s.modules) && CountRoutes(s.modules) <= 1
  }

  /** Exactly one loopback, to the given output. */
  ghost predicate OneRouteTo(s: Server, sink: string) {
    && Numbered(s.modules) && CountRoutes(s.modules) == 1
    && FindRoute(s.modules).Some? && FindRoute(s.modules).value.sink == Some(sink)
  }

  /**
   Exactly one loopback, to the part of the output's name before any space; so it is to that output exactly when its
   name has no space.
   */
  ghost predicate RoutedTo(s: Server, sink: string) {
    OneRouteTo(s, LeadingWord(sink)) && (OneRouteTo(s, sink) <==> Unbroken(sink))
  }

  // ---------------------------------------------------------------------------------------------
  // The module list as text
  // ---------------------------------------------------------------------------------------------

  lemma NumberUnbroken(id: string)
    requires IsU64(id)
    ensures id != [] && Unbroken(id) && !(SINK <= id)
  {
    if id[0] == '+' {
      assert id == [id[0]] + id[1..];
    }
  }

  /** A numbered line begins with its number. */
  lemma LineFields(m: Module)
    requires IsU64(m.id)
    ensures Words(Line(m)) == [m.id] + Words("\t" + m.name + "\t" + m.arguments)
  {
    hide Words, IsU64;
    NumberUnbroken(m.id);
    WordThenBreak(m.id, "\t" + m.name + "\t" + m.arguments);
    assert Line(m) == m.id + ("\t" + m.name + "\t" + m.arguments);
  }

  lemma BreakThenWord(word: string, rest: string, space: char)
    requires IsWhitespace(space) && word != [] && Unbroken(word) && (rest == [] || IsWhitespace(rest[0]))
    ensures Words([space] + word + rest) == [word] + Words(rest)
  {
    assert ([space] + word + rest)[1..] == word + rest;
    WordThenBreak(word, rest);
  }

  /** Characters from `!` to `~`: none is whitespace. */
  predicate Graphic(text: string) {
    forall i :: 0 <= i < |text| ==> '!' <= text[i] <= '~'
  }

  lemma GraphicUnbroken(text: string)
    requires Graphic(text)
    ensures Unbroken(text)
  {
  }

  lemma Constants()
    ensures Graphic(SOURCE) && Graphic(LOOPBACK) && Graphic(SINK)
    ensures SOURCE != [] && LOOPBACK != [] && SINK != []
    ensures !(SINK <= SOURCE) && !(SINK <= LOOPBACK)
  {
    assert SOURCE[1] != SINK[1] && LOOPBACK[0] != SINK[0];
  }

  /** The words of a loopback's line: an output name with a space in it is cut there. */
  lemma RouteWords(id: string, loopback: string, source: string, named: string, rest: string)
    requires IsU64(id) && Unbroken(loopback) && Unbroken(source) && Unbroken(named)
    requires loopback != [] && source != [] && named != [] && rest != [] && IsWhitespace(rest[0])
    ensures Words(id + "\t" + loopback + "\t" + (source + " " + named + rest)) ==
            [id, loopback, source, named] + Words(rest)
  {
    hide Words, IsU64;
    NumberUnbroken(id);
    var three := " " + named + rest;
    var two := "\t" + source + three;
    var one := "\t" + loopback + two;
    BreakThenWord(named, rest, ' ');
    assert three == [' '] + named + rest;
    BreakThenWord(source, three, '\t');
    assert two == ['\t'] + source + three;
    BreakThenWord(loopback, two, '\t');
    assert one == ['\t'] + loopback + two;
    WordThenBreak(id, one);
    LineParts(id, loopback, source, named, rest);
  }

  lemma LineParts(id: string, loopback: string, source: string, named: string, rest: string)
    ensures id + "\t" + loopback + "\t" + (source + " " + named + rest)
         == id + ("\t" + loopback + ("\t" + source + (" " + named + rest)))
  {
    var tab, space := "\t", " ";
    Regroup(source, space, named);
    Regroup(source, space + named, rest);
    Regroup(id + tab + loopback, tab, source + (space + named + rest));
    Regroup(tab, source, space + named + rest);
    Regroup(id + tab, loopback, tab + source + (space + named + rest));
    Regroup(id, tab, loopback + (tab + source + (space + named + rest)));
    Regroup(tab, loopback, tab + source + (space + named + rest));
  }

  lemma ArgumentsSplit(sink: string, source: string, mark: string, tail: string)
    ensures source + " " + mark + sink + tail ==
            source + " " + (mark + LeadingWord(sink)) + (sink[|LeadingWord(sink)|..] + tail)
  {
    LeadingWordIs(sink);
    hide LeadingWord;
    var word, more := LeadingWord(sink), sink[|LeadingWord(sink)|..];
    assert sink == word + more;
    var front := source + " ";
    Regroup(front + mark, word, more);
    Regroup(front + mark + word, more, tail);
    Regroup(front, mark, word);
  }

  lemma FieldsOfRoute(fields: seq<string>, id: string, loopback: string, source: string, mark: string, word: string,
      more: seq<string>)
    requires fields == [id, loopback, source, mark + word] + more && mark == SINK
    requires !(SINK <= id) && !(SINK <= loopback) && !(SINK <= source)
    ensures SinkField(fields) == Some(word)
  {
    var last := [mark + word] + more;
    SinkFieldFirst(mark, word, more);
    hide SinkField;
    SinkFieldSkips(source, last);
    SinkFieldSkips(loopback, [source] + last);
    SinkFieldSkips(id, [loopback] + ([source] + last));
    OneByOne(id, loopback, source, mark + word, more);
  }

  lemma OneByOne(a: string, b: string, c: string, d: string, more: seq<string>)
    ensures [a, b, c, d] + more == [a] + ([b] + ([c] + ([d] + more)))
  {
  }

  lemma SinkFieldFirst(mark: string, word: string, more: seq<string>)
    requires mark == SINK
    ensures SinkField([mark + word] + more) == Some(word)
  {
    assert (mark + word)[|mark|..] == word;
  }

  lemma SinkFieldSkips(first: string, rest: seq<string>)
    requires !(SINK <= first)
    ensures SinkField([first] + rest) == SinkField(rest)
  {
    assert ([first] + rest)[1..] == rest;
  }

  lemma NewRouteFields(m: Module, sink: string, source: string, mark: string, tail: string) returns (more: seq<string>)
    requires IsU64(m.id) && m.arguments == source + " " + mark + sink + tail && tail != [] && IsWhitespace(tail[0])
    requires Unbroken(m.name) && Unbroken(source) && Unbroken(mark) && m.name != [] && source != [] && mark != []
    ensures Words(Line(m)) == [m.id, m.name, source, mark + LeadingWord(sink)] + more
  {
    var word := LeadingWord(sink);
    var rest := sink[|word|..] + tail;
    hide Words, IsU64, LeadingWord;
    LeadingWordIs(sink);
    ArgumentsSplit(sink, source, mark, tail);
    assert Line(m) == m.id + "\t" + m.name + "\t" + (source + " " + (mark + word) + rest);
    RouteWords(m.id, m.name, source, mark + word, rest);
    more := Words(rest);
  }

  lemma NewRouteIs(id: string, sink: string)
    requires IsU64(id)
    ensures var m := Module(id, LOOPBACK, Arguments(sink));
            IsRoute(m) && Found(m) == Existing(id, Some(LeadingWord(sink)))
  {
    hide Words, LeadingWord, IsU64, Line, SinkField;
    NumberUnbroken(id);
    Constants();
    GraphicUnbroken(SOURCE);
    GraphicUnbroken(LOOPBACK);
    GraphicUnbroken(SINK);
    var m := Module(id, LOOPBACK, Arguments(sink));
    var more := NewRouteFields(m, sink, SOURCE, SINK, " " + TAIL);
    FieldsOfRoute(Words(Line(m)), id, LOOPBACK, SOURCE, SINK, LeadingWord(sink), more);
  }

  // ---------------------------------------------------------------------------------------------
  // Counting loopbacks
  // ---------------------------------------------------------------------------------------------

  lemma {:induction false} CountAppended(modules: seq<Module>, m: Module)
    ensures CountRoutes(modules + [m]) == CountRoutes(modules) + (if IsRoute(m) then 1 else 0)
    ensures FindRoute(modules + [m]) ==
              if FindRoute(modules).Some? then FindRoute(modules) else if IsRoute(m) then Some(Found(m)) else None
  {
    hide IsRoute, Found;
    if modules == [] {
      assert [m][1..] == [] && [] + [m] == [m];
    } else {
      CountAppended(modules[1..], m);
      assert (modules + [m])[1..] == modules[1..] + [m];
    }
  }

  lemma {:induction false} FoundMeansCounted(modules: seq<Module>)
    ensures FindRoute(modules).Some? <==> CountRoutes(modules) >= 1
  {
    hide IsRoute, Found;
    if modules != [] {
      FoundMeansCounted(modules[1..]);
    }
  }

  lemma {:induction false} CountWithout(modules: seq<Module>, id: string)
    requires Numbered(modules)
    ensures CountRoutes(Without(modules, id)) <= CountRoutes(modules) && Numbered(Without(modules, id))
    ensures FindRoute(modules).Some? && FindRoute(modules).value.id == id ==>
              CountRoutes(Without(modules, id)) < CountRoutes(modules)
  {
    hide IsRoute, Words, Line, SinkField;
    if modules != [] {
      CountWithout(modules[1..], id);
      LineFields(modules[0]);
    }
  }

  // ---------------------------------------------------------------------------------------------
  // One call
  // ---------------------------------------------------------------------------------------------

  lemma LoadsOne(s: Server, sink: string, load: LoadFate)
    requires Numbered(s.modules) && CountRoutes(s.modules) == 0 && HonestLoad(s.modules, load)
    ensures AtMostOne(AfterLoad(s, sink, load)) && AfterLoad(s, sink, load).defaultSink == s.defaultSink
    ensures load.Ok() ==> OneRouteTo(AfterLoad(s, sink, load), LeadingWord(sink))
  {
    hide IsRoute, Found, IsU64, Arguments;
    if load.done {
      CountAppended(s.modules, Module(load.id, LOOPBACK, Arguments(sink)));
      FoundMeansCounted(s.modules);
      NewRouteIs(load.id, sink);
    }
  }

  /** How the commands of a routing call have to end for it to succeed. */
  ghost predicate RouteCanEnd(s: Server, sink: string, create: bool, force: bool, f: RouteFates) {
    f.listed &&
    if CountRoutes(s.modules) == 0 then !create || f.load.Ok()
    else (OneRouteTo(s, sink) && !force) || (f.unload.ok && f.load.Ok())
  }

  lemma RouteSucceedsIff(s: Server, sink: string, create: bool, force: bool, f: RouteFates)
    requires AtMostOne(s)
    ensures Route(s, sink, create, force, f).ok <==> RouteCanEnd(s, sink, create, force, f)
  {
    hide IsRoute, Found, IsU64, FindRoute, CountRoutes, Without;
    FoundMeansCounted(s.modules);
  }

  lemma {:induction false} WithoutIs(modules: seq<Module>, id: string)
    ensures forall m :: m in Without(modules, id) <==> m in modules && m.id != id
  {
    if modules != [] {
      WithoutIs(modules[1..], id);
      assert modules == [modules[0]] + modules[1..];
    }
  }

  /** A routing call adds no module but the loopback, and takes none away but those with the old loopback's number. */
  lemma OthersKept(s: Server, sink: string, create: bool, force: bool, f: RouteFates)
    ensures var before, after := s.modules, Route(s, sink, create, force, f).server.modules;
            var loaded := Module(f.load.id, "module-loopback",
                                 "source=lumistripe_spotify.monitor" + " " + "sink=" + sink + " "
                                 + "latency_msec=20 sink_input_properties=application.name=LumiStripe-Spotify");
            && (forall m :: m in after ==> m in before || m == loaded)
            && (forall m :: m in before && (FindRoute(before).Some? ==> m.id != FindRoute(before).value.id) ==>
                  m in after)
  {
    hide IsRoute, Found, FindRoute, Without, IsPaddedU64;
    if FindRoute(s.modules).Some? {
      WithoutIs(s.modules, FindRoute(s.modules).value.id);
    }
  }

  /** A module is the loopback exactly when it is a loopback module and its arguments name the Spotify monitor. */
  lemma RouteIff(m: Module)
    requires IsU64(m.id) && m.name != [] && Unbroken(m.name)
    ensures IsRoute(m) <==>
              m.name == "module-loopback" && "source=lumistripe_spotify.monitor" in Words(m.arguments)
  {
    hide Words, IsU64;
    LineFields(m);
    var rest := "\t" + m.arguments;
    assert "\t" + m.name + "\t" + m.arguments == ['\t'] + m.name + rest;
    BreakThenWord(m.name, rest, '\t');
    WordsAfterTab(m.arguments);
    assert Words(Line(m)) == [m.id, m.name] + Words(m.arguments);
    IdIsNoSource(m.id);
    assert SOURCE[0] != LOOPBACK[0];
  }

  lemma WordsAfterTab(text: string)
    ensures Words("\t" + text) == Words(text)
  {
    assert ("\t" + text)[1..] == text;
  }

  lemma IdIsNoSource(id: string)
    requires IsU64(id)
    ensures id != SOURCE
  {
    assert SOURCE[0] == 's' && SOURCE[1] == 'o';
    assert id[0] == '+' || '0' <= id[0] <= '9';
  }

  lemma {:induction false} FoundIsModule(modules: seq<Module>)
    requires Numbered(modules) && FindRoute(modules).Some?
    ensures exists k :: 0 <= k < |modules| && IsRoute(modules[k]) && modules[k].id == FindRoute(modules).value.id
  {
    hide IsRoute, Words, Line, SinkField;
    if IsRoute(modules[0]) {
      LineFields(modules[0]);
    } else {
      FoundIsModule(modules[1..]);
      var k :| 0 <= k < |modules[1..]| && IsRoute(modules[1..][k])
               && modules[1..][k].id == FindRoute(modules[1..]).value.id;
      assert modules[k + 1] == modules[1..][k];
    }
  }

  /** Whatever else is loaded stays loaded, other loopbacks included. */
  lemma ForeignKept(s: Server, sink: string, create: bool, force: bool, f: RouteFates, m: Module)
    requires Numbered(s.modules) && forall i, j :: 0 <= i < j < |s.modules| ==> s.modules[i].id != s.modules[j].id
    requires m in s.modules && m.name != [] && Unbroken(m.name)
    requires m.name != "module-loopback" || "source=lumistripe_spotify.monitor" !in Words(m.arguments)
    ensures m in Route(s, sink, create, force, f).server.modules
  {
    hide IsRoute, Found, FindRoute, Without, Route, Words, Unbroken;
    RouteIff(m);
    OthersKept(s, sink, create, force, f);
    if FindRoute(s.modules).Some? {
      FoundIsModule(s.modules);
      var k :| 0 <= k < |s.modules| && IsRoute(s.modules[k]) && s.modules[k].id == FindRoute(s.modules).value.id;
    }
  }

  /** Whether a routing call comes to unload the loopback, and whether it comes to load one. */
  ghost predicate Unloads(s: Server, sink: string, force: bool, f: RouteFates) {
    f.listed && CountRoutes(s.modules) >= 1 && (force || !OneRouteTo(s, sink))
  }

  ghost predicate Loads(s: Server, sink: string, create: bool, force: bool, f: RouteFates) {
    f.listed && if CountRoutes(s.modules) == 0 then create else Unloads(s, sink, force, f) && f.unload.ok
  }

  /** The modules after a routing call: a command that it comes to, and that is carried out, has its effect. */
  lemma RouteDoes(s: Server, sink: string, create: bool, force: bool, f: RouteFates)
    requires AtMostOne(s)
    ensures var after := Route(s, sink, create, force, f).server;
            && after.defaultSink == s.defaultSink
            && (Unloads(s, sink, force, f) ==> FindRoute(s.modules).Some?)
            && after.modules ==
               (if Unloads(s, sink, force, f) && f.unload.done then Without(s.modules, FindRoute(s.modules).value.id)
                else s.modules)
               + (if Loads(s, sink, create, force, f) && f.load.done then
                    [Module(f.load.id, LOOPBACK, Arguments(sink))]
                  else [])
  {
    hide IsRoute, Found, IsU64, FindRoute, CountRoutes, Without, Arguments, IsPaddedU64;
    FoundMeansCounted(s.modules);
  }

  /** A forced call that succeeds loads the loopback anew even when it led to the requested output already. */
  lemma ForcedReplaces(s: Server, sink: string, create: bool, f: RouteFates)
    requires AtMostOne(s) && HonestRoute(s.modules, f) && CountRoutes(s.modules) == 1
    requires Route(s, sink, create, true, f).ok
    ensures f.unload.done && f.load.done && FindRoute(s.modules).Some?
    ensures Route(s, sink, create, true, f).server.modules ==
            Without(s.modules, FindRoute(s.modules).value.id) + [Module(f.load.id, LOOPBACK, Arguments(sink))]
  {
    hide IsRoute, Found, IsU64, FindRoute, CountRoutes, Without, Arguments, IsPaddedU64;
    FoundMeansCounted(s.modules);
  }

  /** A call that may not create a loopback leaves a server without one alone, and otherwise does what any call does. */
  lemma NothingCreated(s: Server, sink: string, force: bool, f: RouteFates)
    ensures if CountRoutes(s.modules) == 0 then Route(s, sink, false, force, f) == Answer(s, f.listed)
            else Route(s, sink, false, force, f) == Route(s, sink, true, force, f)
  {
    hide IsRoute, Found, FindRoute, CountRoutes, Without, Arguments, IsPaddedU64;
    FoundMeansCounted(s.modules);
  }

  lemma {:induction false} FieldsUnbroken(text: string)
    ensures forall i :: 0 <= i < |Words(text)| ==> Unbroken(Words(text)[i])
    decreases |text|
  {
    if text != [] {
      if IsWhitespace(text[0]) {
        FieldsUnbroken(text[1..]);
      } else {
        FieldsUnbroken(text[|LeadingWord(text)|..]);
      }
    }
  }

  lemma {:induction false} SinkFieldUnbroken(fields: seq<string>)
    requires forall i :: 0 <= i < |fields| ==> Unbroken(fields[i])
    ensures SinkField(fields).Some? ==> Unbroken(SinkField(fields).value)
  {
    if fields != [] && !(SINK <= fields[0]) {
      SinkFieldUnbroken(fields[1..]);
    }
  }

  lemma {:induction false} FoundSinkUnbroken(modules: seq<Module>)
    ensures FindRoute(modules).Some? && FindRoute(modules).value.sink.Some? ==>
            Unbroken(FindRoute(modules).value.sink.value)
  {
    hide Unbroken, SinkField, Words;
    if modules != [] {
      if IsRoute(modules[0]) {
        FieldsUnbroken(Line(modules[0]));
        SinkFieldUnbroken(Words(Line(modules[0])));
      } else {
        FoundSinkUnbroken(modules[1..]);
      }
    }
  }

  /** Whatever fails, a routing call leaves at most one loopback; if it succeeds there is one, to its output. */
  lemma RouteKeepsOne(s: Server, sink: string, force: bool, f: RouteFates)
    requires AtMostOne(s) && HonestRoute(s.modules, f)
    ensures var answer := Route(s, sink, true, force, f);
            && AtMostOne(answer.server) && answer.server.defaultSink == s.defaultSink
            && (answer.ok ==> RoutedTo(answer.server, sink))
  {
    hide IsRoute, Found, IsU64, FindRoute, CountRoutes, Without, LeadingWord, Unbroken;
    FoundMeansCounted(s.modules);
    FoundSinkUnbroken(s.modules);
    LeadingWordIs(sink);
    var existing := FindRoute(s.modules);
    if existing.Some? {
      CountWithout(s.modules, existing.value.id);
    }
    if f.listed {
      if existing.None? {
        LoadsOne(s, sink, f.load);
      } else if !(existing.value.sink == Some(sink) && !force) && f.unload.ok {
        LoadsOne(AfterUnload(s, existing.value.id, f.unload), sink, f.load);
      }
    }
  }

  /**
    After a call that succeeded, the loopback is recognized as leading to the requested output exactly when
    the output's name has no space in it; then another unforced call touches nothing, else it starts by removing
    the loopback again.
    */
  lemma RepeatIsIdle(s: Server, sink: string, force: bool, f: RouteFates, again: RouteFates)
    requires AtMostOne(s) && HonestRoute(s.modules, f) && Route(s, sink, true, force, f).ok && again.listed
    ensures var after := Route(s, sink, true, force, f).server;
            && (OneRouteTo(after, sink) <==> Unbroken(sink))
            && (Unbroken(sink) ==> Route(after, sink, true, false, again) == Answer(after, true))
            && (!Unbroken(sink) && again.unload.done && !again.load.done ==>
                  CountRoutes(Route(after, sink, true, false, again).server.modules) == 0)
  {
    hide IsRoute, Found, IsU64, FindRoute, CountRoutes, Without, LeadingWord, Unbroken;
    RouteKeepsOne(s, sink, force, f);
    var after := Route(s, sink, true, force, f).server;
    CountWithout(after.modules, FindRoute(after.modules).value.id);
  }

  /** A switch that fails leaves at most one loopback, and one that succeeds leaves one, to its output. */
  lemma SwitchKeepsOne(st: State, routing: bool, sink: string, f: SwitchFates)
    requires AtMostOne(st.server) && HonestSwitch(st, sink, f)
    ensures var outcome := Switch(st, routing, sink, f);
            && AtMostOne(outcome.state.server) && outcome.state.published == st.published
            && (outcome.ok ==> outcome.state.server.defaultSink == Some(sink))
            && (outcome.ok && routing ==> RoutedTo(outcome.state.server, sink))
  {
    hide FindRoute, CountRoutes, RoutedTo, Route, HonestRoute;
    var chosen, unrouted := Chosen(st, sink, f), Unrouted(st, sink, f);
    RouteKeepsOne(chosen, sink, false, f.route);
    if Previous(st, f.info).Some? {
      RouteKeepsOne(AfterDefault(unrouted, Previous(st, f.info).value, f.restore), Previous(st, f.info).value, false,
          f.reroute);
    }
  }

  /** A switch succeeds exactly when the server takes the new default and, with routing on, the loopback follows. */
  lemma SwitchSucceedsIff(st: State, routing: bool, sink: string, f: SwitchFates)
    requires AtMostOne(st.server)
    ensures Switch(st, routing, sink, f).ok <==>
              f.choose.ok && (routing ==> RouteCanEnd(Chosen(st, sink, f), sink, true, false, f.route))
    ensures !f.choose.ok || !routing ==> Switch(st, routing, sink, f).state.server == Chosen(st, sink, f)
  {
    hide Route, RouteCanEnd;
    RouteSucceedsIff(Chosen(st, sink, f), sink, true, false, f.route);
  }

  /** Whether a switch comes to its rollback. */
  ghost predicate RollsBack(st: State, routing: bool, sink: string, f: SwitchFates) {
    && routing && f.choose.ok && !RouteCanEnd(Chosen(st, sink, f), sink, true, false, f.route)
    && (st.published.Some? || (f.info && st.server.defaultSink.Some?))
  }

  /**
   The default after a switch: the sink that the rollback went back to, which is the published one or else the
   server's own, or the chosen one, or the old one, as far as the commands were carried out.
   */
  lemma SwitchDefault(st: State, routing: bool, sink: string, f: SwitchFates)
    requires AtMostOne(st.server)
    ensures var back := RollsBack(st, routing, sink, f) && f.restore.done;
            Switch(st, routing, sink, f).state.server.defaultSink ==
              if back && st.published.Some? then st.published
              else if f.choose.done then if back then st.server.defaultSink else Some(sink)
              else st.server.defaultSink
  {
    hide Route, RouteCanEnd;
    RouteSucceedsIff(Chosen(st, sink, f), sink, true, false, f.route);
    DefaultKept(Chosen(st, sink, f), sink, false, f.route);
    if Previous(st, f.info).Some? {
      var previous := Previous(st, f.info).value;
      DefaultKept(AfterDefault(Unrouted(st, sink, f), previous, f.restore), previous, false, f.reroute);
    }
  }

  lemma DefaultKept(s: Server, sink: string, force: bool, f: RouteFates)
    ensures Route(s, sink, true, force, f).server.defaultSink == s.defaultSink
  {
    hide FindRoute, Without, Arguments;
  }

  /** The modules after a switch: those of the routing, and of the second routing when the default was restored. */
  lemma SwitchModules(st: State, routing: bool, sink: string, f: SwitchFates)
    requires AtMostOne(st.server)
    ensures var after := Switch(st, routing, sink, f).state.server;
            var routed := Route(Chosen(st, sink, f), sink, true, false, f.route).server;
            && (!routing || !f.choose.ok ==> after.modules == st.server.modules)
            && (routing && f.choose.ok && !(RollsBack(st, routing, sink, f) && f.restore.ok) ==>
                  after.modules == routed.modules)
            && (RollsBack(st, routing, sink, f) && f.restore.ok ==>
                  var previous := if st.published.Some? then st.published.value else st.server.defaultSink.value;
                  after.modules ==
                    Route(AfterDefault(routed, previous, f.restore), previous, true, false, f.reroute).server.modules)
  {
    hide Route, RouteCanEnd;
    RouteSucceedsIff(Chosen(st, sink, f), sink, true, false, f.route);
  }

  /**
    A switch that fails in routing, and whose rollback commands succeed, ends with one loopback to the output that
    the published status named, or failing that the server; which is the one the server had before exactly when
    the published status was right about it.
    */
  lemma RollbackRestores(st: State, sink: string, f: SwitchFates)
    requires AtMostOne(st.server) && HonestSwitch(st, sink, f)
    requires f.choose.ok && !Route(Chosen(st, sink, f), sink, true, false, f.route).ok && Previous(st, f.info).Some?
    requires f.restore.ok && f.reroute.listed && f.reroute.unload.ok && f.reroute.load.Ok()
    ensures var outcome := Switch(st, true, sink, f);
            var server, previous := outcome.state.server, Previous(st, f.info).value;
            && !outcome.ok && server.defaultSink == Some(previous) && RoutedTo(server, previous)
            && (server.defaultSink == st.server.defaultSink <==>
                 st.published.None? || st.published == st.server.defaultSink)
  {
    var previous := Previous(st, f.info).value;
    var restored := AfterDefault(Unrouted(st, sink, f), previous, f.restore);
    assert Route(restored, previous, true, false, f.reroute).ok;
    hide FindRoute, CountRoutes, RoutedTo, Route, HonestRoute;
    RouteKeepsOne(Chosen(st, sink, f), sink, false, f.route);
    RouteKeepsOne(restored, previous, false, f.reroute);
  }

  // ---------------------------------------------------------------------------------------------
  // Runs
  // ---------------------------------------------------------------------------------------------

  /** A call under the permit, a refresh, or other programs changing outputs and modules of their own. */
  datatype Event =
    | EnsureCall(force: bool, info: bool, f: RouteFates)
    | RefreshCall(collected: Collected, info: bool, f: RouteFates)
    | SwitchCall(sink: string, s: SwitchFates)
    | Others(server: Server)

  ghost predicate Honest(st: State, e: Event) {
    match e
    case EnsureCall(_, _, f) => HonestRoute(st.server.modules, f)
    case RefreshCall(_, _, f) => HonestRoute(st.server.modules, f)
    case SwitchCall(sink, s) => HonestSwitch(st, sink, s)
    case Others(server) => Numbered(server.modules) && CountRoutes(server.modules) <= CountRoutes(st.server.modules)
  }

  function Step(st: State, enabled: bool, routing: bool, e: Event): State {
    match e
    case EnsureCall(force, info, f) => Ensure(st, routing, force, info, f).state
    case RefreshCall(collected, info, f) => Refresh(st, enabled, routing, collected, info, f)
    case SwitchCall(sink, s) => if enabled then Switch(st, routing, sink, s).state else st
    case Others(server) => st.(server := server)
  }

  function Run(st: State, enabled: bool, routing: bool, events: seq<Event>): State {
    if events == [] then st
    else Step(Run(st, enabled, routing, events[..|events| - 1]), enabled, routing, events[|events| - 1])
  }

  ghost predicate AllHonest(st: State, enabled: bool, routing: bool, events: seq<Event>) {
    forall i :: 0 <= i < |events| ==> Honest(Run(st, enabled, routing, events[..i]), events[i])
  }

  /** An unforced or forced call leaves one loopback, to the server's default or else to the published one. */
  lemma EnsureKeepsOne(st: State, routing: bool, force: bool, info: bool, f: RouteFates)
    requires AtMostOne(st.server) && HonestRoute(st.server.modules, f)
    ensures var outcome := Ensure(st, routing, force, info, f);
            && AtMostOne(outcome.state.server) && outcome.state.published == st.published
            && outcome.state.server.defaultSink == st.server.defaultSink
            && (outcome.ok ==>
                  var sink := if st.server.defaultSink.Some? then st.server.defaultSink else st.published;
                  sink.Some? && RoutedTo(outcome.state.server, sink.value))
  {
    hide FindRoute, CountRoutes, RoutedTo, Route, HonestRoute;
    var sink := if st.server.defaultSink.Some? then st.server.defaultSink else st.published;
    if sink.Some? {
      RouteKeepsOne(st.server, sink.value, force, f);
    }
  }

  /** A serialized call succeeds exactly when routing is on, the server answers, a sink is known and its commands do. */
  lemma EnsureSucceedsIff(st: State, routing: bool, force: bool, info: bool, f: RouteFates)
    requires AtMostOne(st.server)
    ensures Ensure(st, routing, force, info, f).ok <==>
              && routing && info && (st.server.defaultSink.Some? || st.published.Some?)
              && var sink := if st.server.defaultSink.Some? then st.server.defaultSink.value else st.published.value;
                 RouteCanEnd(st.server, sink, true, force, f)
  {
    hide Route, RouteCanEnd;
    var sink := if st.server.defaultSink.Some? then st.server.defaultSink else st.published;
    if sink.Some? {
      RouteSucceedsIff(st.server, sink.value, true, force, f);
    }
  }

  /**
   A refresh publishes what was collected, and when that is a default output and the commands succeed, it leaves one
   loopback, to the server's default or else to the one published before. Disabled, it does nothing; with routing
   off or nothing collected it leaves the server alone.
   */
  lemma RefreshRoutes(st: State, enabled: bool, routing: bool, collected: Collected, info: bool, f: RouteFates)
    requires AtMostOne(st.server) && HonestRoute(st.server.modules, f)
    ensures var after := Refresh(st, enabled, routing, collected, info, f);
            && (!enabled ==> after == st)
            && (enabled && collected.Fresh? ==> after.published == st.server.defaultSink)
            && (enabled && collected.Preserved? ==> after.published == st.published)
            && (enabled && collected.Cleared? ==> after.published == None)
            && (enabled && (!routing || after.published.None?) ==> after.server == st.server)
            && (enabled && routing && after.published.Some? && info ==>
                  var sink := if st.server.defaultSink.Some? then st.server.defaultSink.value else st.published.value;
                  && (RouteCanEnd(st.server, sink, true, false, f) ==> RoutedTo(after.server, sink))
                  && (OneRouteTo(st.server, sink) ==> after.server == st.server))
  {
    hide CountRoutes, RoutedTo, Route, HonestRoute, RouteCanEnd;
    EnsureSucceedsIff(st, routing, false, info, f);
    EnsureKeepsOne(st, routing, false, info, f);
    var sink := if st.server.defaultSink.Some? then st.server.defaultSink else st.published;
    if sink.Some? && OneRouteTo(st.server, sink.value) {
      RoutedAlready(st.server, sink.value, f);
    }
  }

  lemma RoutedAlready(s: Server, sink: string, f: RouteFates)
    requires OneRouteTo(s, sink)
    ensures Route(s, sink, true, false, f).server == s
  {
    hide FindRoute, CountRoutes;
  }

  /** From at most one loopback there is never more than one, over every run in which any command may fail. */
  lemma {:induction false} NeverTwo(st: State, enabled: bool, routing: bool, events: seq<Event>)
    requires AtMostOne(st.server) && AllHonest(st, enabled, routing, events)
    ensures AtMostOne(Run(st, enabled, routing, events).server)
  {
    if events != [] {
      var before, last := events[..|events| - 1], events[|events| - 1];
      assert AllHonest(st, enabled, routing, before) by {
        forall i | 0 <= i < |before| ensures Honest(Run(st, enabled, routing, before[..i]), before[i]) {
          assert before[..i] == events[..i];
        }
      }
      NeverTwo(st, enabled, routing, before);
      assert Honest(Run(st, enabled, routing, before), last);
      OneStep(Run(st, enabled, routing, before), enabled, routing, last);
    }
  }

  lemma OneStep(st: State, enabled: bool, routing: bool, e: Event)
    requires AtMostOne(st.server) && Honest(st, e)
    ensures AtMostOne(Step(st, enabled, routing, e).server)
  {
    hide Ensure, Switch, HonestRoute, HonestSwitch, CountRoutes;
    match e
    case EnsureCall(force, info, f) => EnsureKeepsOne(st, routing, force, info, f);
    case RefreshCall(_, info, f) => EnsureKeepsOne(st, routing, false, info, f);
    case SwitchCall(sink, s) => SwitchKeepsOne(st, routing, sink, s);
    case Others(_) =>
  }

  // ---------------------------------------------------------------------------------------------
  // Where the natural claims fail
  // ---------------------------------------------------------------------------------------------

  const NUMBER := "1"
  const LOADED := LoadFate(true, Some(NUMBER), NUMBER)
  const NOT_LOADED := LoadFate(false, None, NUMBER)
  const NOTHING_TO_UNLOAD := Fate(false, false)

  lemma NumberAccepted()
    ensures IsU64(NUMBER) && IsPaddedU64(NUMBER) && LOADED.Ok()
  {
    assert DecimalValue(NUMBER[..0]) == 0;
    assert NUMBER[1..] == [];
    WordThenBreak(NUMBER, []);
    assert NUMBER + [] == NUMBER;
  }

  /** A published status that is out of date: the rollback goes to `a`, although the server's default was `b`. */
  lemma RollbackToStaleDefault() returns (st: State, sink: string, f: SwitchFates)
    ensures AtMostOne(st.server) && HonestSwitch(st, sink, f)
    ensures f.choose.ok && !Route(Chosen(st, sink, f), sink, true, false, f.route).ok && f.restore.ok
    ensures var after := Switch(st, true, sink, f).state.server;
            && OneRouteTo(after, "a") && after.defaultSink == Some("a") && st.server.defaultSink == Some("b")
  {
    st, sink := State(Server(Some("b"), []), Some("a")), "c";
    f := SwitchFates(true, Fate(true, true), RouteFates(true, NOTHING_TO_UNLOAD, NOT_LOADED), Fate(true, true),
                     RouteFates(true, Fate(true, true), LOADED));
    NumberAccepted();
    hide IsU64, Words, Arguments;
    assert Unrouted(st, sink, f) == Server(Some("c"), []);
    assert Unbroken("a");
    RollbackRestores(st, sink, f);
  }

  /** A sink with a space in its name: the loopback just made for it is removed by the next unforced call. */
  lemma SpacedSinkRemoved() returns (s: Server, sink: string, f: RouteFates, again: RouteFates)
    ensures AtMostOne(s) && HonestRoute(s.modules, f) && Route(s, sink, true, false, f).ok
    ensures var after := Route(s, sink, true, false, f).server;
            && CountRoutes(after.modules) == 1 && HonestRoute(after.modules, again)
            && CountRoutes(Route(after, sink, true, false, again).server.modules) == 0
  {
    s, sink := Server(None, []), "a b";
    f := RouteFates(true, NOTHING_TO_UNLOAD, LOADED);
    again := RouteFates(true, Fate(true, true), NOT_LOADED);
    NumberAccepted();
    assert IsWhitespace(sink[1]);
    hide IsU64, Words, Arguments, IsWhitespace;
    assert !Unbroken(sink);
    hide Unbroken;
    LoadsOne(s, sink, f.load);
    FoundMeansCounted(Route(s, sink, true, false, f).server.modules);
    RepeatIsIdle(s, sink, false, f, again);
  }
}
