/** The loopback that carries Spotify to the default output, and the commands that keep it. */
module SpotifyRoute {
  import opened Wrappers
  import opened Decimals
  import opened Whitespace

  const SOURCE := "source=lumistripe_spotify.monitor"
  const LOOPBACK := "module-loopback"
  const SINK := "sink="
  const TAIL := "latency_msec=20 sink_input_properties=application.name=LumiStripe-Spotify"

  datatype Module = Module(id: string, name: string, arguments: string)

  datatype Server = Server(defaultSink: Option<string>, modules: seq<Module>)

  // ---------------------------------------------------------------------------------------------
  // Reading the module list
  // ---------------------------------------------------------------------------------------------

  function Line(m: Module): string {
    m.id + "\t" + m.name + "\t" + m.arguments
  }

  function SinkField(fields: seq<string>): Option<string> {
    if fields == [] then None
    else if SINK <= fields[0] then Some(fields[0][|SINK|..])
    else SinkField(fields[1..])
  }

  predicate IsRoute(m: Module) {
    var fields := Words(Line(m));
    |fields| >= 2 && IsU64(fields[0]) && fields[1] == LOOPBACK && SOURCE in fields
  }

  datatype Existing = Existing(id: string, sink: Option<string>)

  function Found(m: Module): Existing
    requires IsRoute(m)
  {
    Existing(Words(Line(m))[0], SinkField(Words(Line(m))))
  }

  function FindRoute(modules: seq<Module>): Option<Existing> {
    if modules == [] then None
    else if IsRoute(modules[0]) then Some(Found(modules[0]))
    else FindRoute(modules[1..])
  }

  function CountRoutes(modules: seq<Module>): nat {
    if modules == [] then 0 else (if IsRoute(modules[0]) then 1 else 0) + CountRoutes(modules[1..])
  }

  function Arguments(sink: string): string {
    SOURCE + " " + SINK + sink + " " + TAIL
  }

  function Without(modules: seq<Module>, id: string): seq<Module> {
    if modules == [] then []
    else if modules[0].id == id then Without(modules[1..], id)
    else [modules[0]] + Without(modules[1..], id)
  }

  // ---------------------------------------------------------------------------------------------
  // Commands that may fail
  // ---------------------------------------------------------------------------------------------

  /** A command may report a failure although it was carried out, but reports no success that did not happen. */
  datatype Fate = Fate(done: bool, ok: bool) {
    predicate Honest() {
      ok ==> done
    }
  }

  /** A load also picks a fresh number, and answers with a text that ought to be that number. */
  datatype LoadFate = LoadFate(done: bool, reply: Option<string>, id: string) {
    predicate Ok() {
      reply.Some? && IsPaddedU64(reply.value)
    }
  }

  /** What `trim` and `parse::<u64>` accept together: one word, and a number. */
  predicate IsPaddedU64(text: string) {
    |Words(text)| == 1 && IsU64(Words(text)[0])
  }

  datatype RouteFates = RouteFates(listed: bool, unload: Fate, load: LoadFate)

  ghost predicate HonestLoad(modules: seq<Module>, load: LoadFate) {
    && (load.Ok() ==> load.done)
    && (load.done ==> IsU64(load.id) && forall i :: 0 <= i < |modules| ==> modules[i].id != load.id)
  }

  function AfterLoad(s: Server, sink: string, load: LoadFate): Server {
    if load.done then s.(modules := s.modules + [Module(load.id, LOOPBACK, Arguments(sink))]) else s
  }

  function AfterUnload(s: Server, id: string, unload: Fate): Server {
    if unload.done then s.(modules := Without(s.modules, id)) else s
  }

  function AfterDefault(s: Server, sink: string, chosen: Fate): Server {
    if chosen.done then s.(defaultSink := Some(sink)) else s
  }

  datatype Answer = Answer(server: Server, ok: bool)

  /** `ensure_spotify_route_for_sink`, once it knows its sink. */
  function Route(s: Server, sink: string, create: bool, force: bool, f: RouteFates): Answer {
    var existing := FindRoute(s.modules);
    if !f.listed then Answer(s, false)
    else if existing.None? then
      if create then Answer(AfterLoad(s, sink, f.load), f.load.Ok()) else Answer(s, true)
    else if existing.value.sink == Some(sink) && !force then Answer(s, true)
    else
      var unloaded := AfterUnload(s, existing.value.id, f.unload);
      if f.unload.ok then Answer(AfterLoad(unloaded, sink, f.load), f.load.Ok()) else Answer(unloaded, false)
  }

  ghost predicate HonestRoute(modules: seq<Module>, f: RouteFates) {
    && f.unload.Honest()
    && (FindRoute(modules).None? ==> HonestLoad(modules, f.load))
    && (FindRoute(modules).Some? && f.unload.ok ==> HonestLoad(Without(modules, FindRoute(modules).value.id), f.load))
  }

  /** The server, and the default output in the status that was last published. */
  datatype State = State(server: Server, published: Option<string>)

  datatype Outcome = Outcome(state: State, ok: bool)

  /** `ensure_spotify_route_serialized`. */
  function Ensure(st: State, routing: bool, force: bool, info: bool, f: RouteFates): Outcome {
    var sink := if st.server.defaultSink.Some? then st.server.defaultSink else st.published;
    if !info || sink.None? || !routing then Outcome(st, false)
    else
      var answer := Route(st.server, sink.value, true, force, f);
      Outcome(st.(server := answer.server), answer.ok)
  }

  /** What a refresh comes to publish: the server's default, the one published before, or none. */
  datatype Collected = Fresh | Preserved | Cleared

  function Refresh(st: State, enabled: bool, routing: bool, collected: Collected, info: bool, f: RouteFates): State {
    var next := match collected case Fresh => st.server.defaultSink case Preserved => st.published case Cleared => None;
    if !enabled then st
    else if routing && next.Some? then Ensure(st, routing, false, info, f).state.(published := next)
    else st.(published := next)
  }

  datatype SwitchFates = SwitchFates(info: bool, choose: Fate, route: RouteFates, restore: Fate, reroute: RouteFates)

  /** The default output that a failed switch goes back to. */
  function Previous(st: State, info: bool): Option<string> {
    if st.published.Some? then st.published else if info then st.server.defaultSink else None
  }

  /** The server with its new default, before the loopback follows. */
  function Chosen(st: State, sink: string, f: SwitchFates): Server {
    AfterDefault(st.server, sink, f.choose)
  }

  /** The server as a failed routing leaves it to the rollback. */
  function Unrouted(st: State, sink: string, f: SwitchFates): Server {
    Route(Chosen(st, sink, f), sink, true, false, f.route).server
  }

  /** `set_default_sink` on a resolved output, up to the release of the permit. */
  function Switch(st: State, routing: bool, sink: string, f: SwitchFates): Outcome {
    var chosen := Chosen(st, sink, f);
    if !f.choose.ok then Outcome(st.(server := chosen), false)
    else if !routing then Outcome(st.(server := chosen), true)
    else if Route(chosen, sink, true, false, f.route).ok then Outcome(st.(server := Unrouted(st, sink, f)), true)
    else if Previous(st, f.info).None? then Outcome(st.(server := Unrouted(st, sink, f)), false)
    else
      var previous := Previous(st, f.info).value;
      var restored := AfterDefault(Unrouted(st, sink, f), previous, f.restore);
      var server := if f.restore.ok then Route(restored, previous, true, false, f.reroute).server else restored;
      Outcome(st.(server := server), false)
  }

  ghost predicate HonestSwitch(st: State, sink: string, f: SwitchFates) {
    && f.choose.Honest() && f.restore.Honest()
    && HonestRoute(st.server.modules, f.route)
    && HonestRoute(Unrouted(st, sink, f).modules, f.reroute)
  }
}
