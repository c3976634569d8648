/** The routing calls step by step, against a server whose commands may fail before or after they act. */
module SpotifyService {
  import opened Wrappers
  import opened Decimals
  import opened Whitespace
  import opened SpotifyRoute

  /** What the commands reach. How each of them ends is given from outside. */
  class PipeWire {
    var server: Server

    constructor (server: Server)
      ensures this.server == server
    {
      this.server := server;
    }

    method SetDefaultSink(sink: string, fate: Fate) returns (ok: bool)
      modifies this
      ensures ok == fate.ok && server == AfterDefault(old(server), sink, fate)
    {
      if fate.done {
        server := server.(defaultSink := Some(sink));
      }
      return fate.ok;
    }

    method UnloadModule(id: string, fate: Fate) returns (ok: bool)
      modifies this
      ensures ok == fate.ok && server == AfterUnload(old(server), id, fate)
    {
      if fate.done {
        server := server.(modules := Without(server.modules, id));
      }
      return fate.ok;
    }

    method LoadModule(name: string, arguments: string, fate: LoadFate) returns (reply: Option<string>)
      modifies this
      ensures reply == fate.reply
      ensures server == if fate.done then
                          old(server).(modules := old(server).modules + [Module(fate.id, name, arguments)])
                        else old(server)
    {
      if fate.done {
        server := server.(modules := server.modules + [Module(fate.id, name, arguments)]);
      }
      return fate.reply;
    }
  }

  class Service {
    const enabled: bool
    const routing: bool
    const pipewire: PipeWire
    /** The default output in the published status. */
    var published: Option<string>

    constructor (enabled: bool, routing: bool, pipewire: PipeWire)
      ensures this.enabled == enabled && this.routing == routing && this.pipewire == pipewire && published == None
    {
      this.enabled, this.routing, this.pipewire, published := enabled, routing, pipewire, None;
    }

    ghost function Now(): State
      reads this, pipewire
    {
      State(pipewire.server, published)
    }

    method FindExisting(listing: seq<Module>) returns (existing: Option<Existing>)
      ensures existing == FindRoute(listing)
    {
      var i := 0;
      while i < |listing|
        invariant 0 <= i <= |listing| && FindRoute(listing) == FindRoute(listing[i..])
      {
        var fields := Words(Line(listing[i]));
        if |fields| < 2 || !IsU64(fields[0]) || fields[1] != LOOPBACK || SOURCE !in fields {
          assert listing[i..][1..] == listing[i + 1..];
          i := i + 1;
        } else {
          return Some(Existing(fields[0], SinkField(fields)));
        }
      }
      return None;
    }

    /** `ensure_spotify_route_for_sink` on a sink its caller names. */
    method EnsureRouteForSink(requested: string, create: bool, force: bool, f: RouteFates) returns (ok: bool)
      modifies pipewire
      ensures Answer(pipewire.server, ok) ==
                if routing then Route(old(pipewire.server), requested, create, force, f)
                else Answer(old(pipewire.server), false)
    {
      hide IsU64, Words, Line, Arguments, FindRoute, Without;
      if !routing {
        return false;
      }
      if !f.listed {
        return false;
      }
      var existing := FindExisting(pipewire.server.modules);
      if existing.None? && !create {
        return true;
      }
      if existing.Some? && existing.value.sink == Some(requested) && !force {
        return true;
      }
      if existing.Some? {
        var unloaded := pipewire.UnloadModule(existing.value.id, f.unload);
        if !unloaded {
          return false;
        }
      }
      var reply := pipewire.LoadModule(LOOPBACK, Arguments(requested), f.load);
      if reply.None? {
        return false;
      }
      return IsPaddedU64(reply.value);
    }

    /** `ensure_spotify_route_serialized`, holding the permit. */
    method EnsureRoute(force: bool, info: bool, f: RouteFates) returns (ok: bool)
      modifies pipewire
      ensures Outcome(Now(), ok) == Ensure(old(Now()), routing, force, info, f)
    {
      hide Route;
      if !info {
        return false;
      }
      var sink := pipewire.server.defaultSink;
      if sink.None? {
        sink := published;
      }
      if sink.None? {
        return false;
      }
      ok := EnsureRouteForSink(sink.value, true, force, f);
    }

    /** `refresh`: the published status changes only after the route was looked after. */
    method Refresh(collected: Collected, info: bool, f: RouteFates)
      modifies this, pipewire
      ensures Now() == SpotifyRoute.Refresh(old(Now()), enabled, routing, collected, info, f)
    {
      hide Ensure;
      if !enabled {
        return;
      }
      var next := match collected
        case Fresh => pipewire.server.defaultSink
        case Preserved => published
        case Cleared => None;
      if routing && next.Some? {
        var ok := EnsureRoute(false, info, f);
      }
      published := next;
    }

    /** `set_default_sink` on a resolved output, while it holds the permit. */
    method SetDefaultSink(sink: string, f: SwitchFates) returns (ok: bool)
      requires enabled
      modifies pipewire
      ensures Outcome(Now(), ok) == Switch(old(Now()), routing, sink, f)
    {
      hide Route;
      var previous := published;
      if previous.None? && f.info {
        previous := pipewire.server.defaultSink;
      }
      var chosen := pipewire.SetDefaultSink(sink, f.choose);
      if !chosen {
        return false;
      }
      if routing {
        ok := EnsureRouteForSink(sink, true, false, f.route);
        if !ok {
          if previous.Some? {
            var restored := pipewire.SetDefaultSink(previous.value, f.restore);
            if restored {
              var rerouted := EnsureRouteForSink(previous.value, true, false, f.reroute);
            }
          }
          return false;
        }
      }
      return true;
    }
  }
}
