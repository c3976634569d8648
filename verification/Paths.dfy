/** Slash-separated paths: components, ancestors, and the byte order in which releases are listed. */
module Paths {
  import opened Wrappers
  import opened Bytes

  /** `split('/')`. */
  function Components(path: bytes): (parts: seq<bytes>)
    ensures |parts| >= 1
    decreases |path|
  {
    var i := IndexOf(path, SLASH);
    if i == |path| then [path] else [path[..i]] + Components(path[i + 1..])
  }

  /** `join("/")`. */
  function Join(parts: seq<bytes>): bytes
    requires |parts| >= 1
  {
    if |parts| == 1 then parts[0] else parts[0] + [SLASH] + Join(parts[1..])
  }

  predicate PlainComponent(part: bytes) {
    part != [] && part != [0x2E] && part != [0x2E, 0x2E]
  }

  predicate AllPlain(parts: seq<bytes>) {
    forall i :: 0 <= i < |parts| ==> PlainComponent(parts[i])
  }

  predicate Slashless(parts: seq<bytes>) {
    forall i :: 0 <= i < |parts| ==> SLASH !in parts[i]
  }

  predicate EndsWithSlash(s: bytes) {
    s != [] && s[|s| - 1] == SLASH
  }

  predicate StartsWithSlash(s: bytes) {
    s != [] && s[0] == SLASH
  }

  /** Joining undoes splitting, on every string. */
  lemma {:induction false} JoinComponents(path: bytes)
    ensures Join(Components(path)) == path
    ensures Slashless(Components(path))
    decreases |path|
  {
    var i := IndexOf(path, SLASH);
    if i < |path| {
      JoinComponents(path[i + 1..]);
      var rest := Components(path[i + 1..]);
      assert Components(path)[1..] == rest;
      assert path == path[..i] + [SLASH] + path[i + 1..];
    }
  }

  /** Splitting a path at one of its slashes splits its components. */
  lemma {:induction false} ComponentsConcat(a: bytes, b: bytes)
    ensures Components(a + [SLASH] + b) == Components(a) + Components(b)
    decreases |a|
  {
    hide Components;
    var i := IndexOf(a, SLASH);
    if i == |a| {
      FirstSlash(a, b);
    } else {
      var head, tail := a[..i], a[i + 1..];
      ComponentsConcat(tail, b);
      ConcatStep(head, tail, b);
      assert a == head + [SLASH] + tail;
      assert a + [SLASH] + b == head + [SLASH] + (tail + [SLASH] + b);
    }
  }

  lemma ConcatStep(head: bytes, tail: bytes, b: bytes)
    requires SLASH !in head
    requires Components(tail + [SLASH] + b) == Components(tail) + Components(b)
    ensures Components(head + [SLASH] + (tail + [SLASH] + b)) == Components(head + [SLASH] + tail) + Components(b)
  {
    hide Components;
    FirstSlash(head, tail);
    FirstSlash(head, tail + [SLASH] + b);
  }

  lemma FirstSlash(head: bytes, rest: bytes)
    requires SLASH !in head
    ensures Components(head) == [head]
    ensures Components(head + [SLASH] + rest) == [head] + Components(rest)
  {
    var s := head + [SLASH] + rest;
    IndexOfIs(head, SLASH, |head|);
    IndexOfIs(s, SLASH, |head|);
    assert s[..|head|] == head && s[|head| + 1..] == rest;
  }

  /** Splitting undoes joining when no component holds a slash. */
  lemma {:induction false} ComponentsJoin(parts: seq<bytes>)
    requires |parts| >= 1
    requires Slashless(parts)
    ensures Components(Join(parts)) == parts
  {
    IndexOfIs(parts[0], SLASH, |parts[0]|);
    if |parts| == 1 {
      assert Components(parts[0]) == [parts[0]];
    } else {
      ComponentsJoin(parts[1..]);
      ComponentsConcat(parts[0], Join(parts[1..]));
      assert Components(parts[0]) == [parts[0]];
      assert parts == [parts[0]] + parts[1..];
    }
  }

  /** The directory part of a path: what stands before its last slash. */
  function Parent(name: bytes): (r: Option<bytes>)
    ensures r.Some? ==> |r.value| < |name| && r.value + [SLASH] <= name
    ensures r.Some? ==> forall i :: |r.value| < i < |name| ==> name[i] != SLASH
    ensures r.None? ==> SLASH !in name
  {
    if name == [] then None
    else if EndsWithSlash(name) then assert name == name[..|name| - 1] + [SLASH]; Some(name[..|name| - 1])
    else
      var last := |name| - 1;
      assert name == name[..last] + [name[last]];
      Parent(name[..last])
  }

  /** `outer` is a proper path ancestor of `inner`. */
  predicate Above(outer: bytes, inner: bytes) {
    outer + [SLASH] <= inner
  }

  /** What lies above a path is its parent or lies above its parent. */
  lemma AboveParent(outer: bytes, inner: bytes)
    ensures Above(outer, inner) <==>
            Parent(inner).Some? && (outer == Parent(inner).value || Above(outer, Parent(inner).value))
  {
    var p := Parent(inner);
    if Above(outer, inner) {
      assert inner[|outer|] == SLASH;
      if |p.value| != |outer| {
        assert inner[..|outer| + 1] == outer + [SLASH];
        assert p.value == inner[..|p.value|];
        assert outer + [SLASH] <= p.value;
      }
    } else if p.Some? && Above(outer, p.value) {
      assert false;
    }
  }

  // ---------------------------------------------------------------------------------------------
  // Order
  // ---------------------------------------------------------------------------------------------

  /** The order of Rust strings: lexicographic on bytes. */
  predicate Less(a: bytes, b: bytes) {
    b != [] && (a == [] || a[0] < b[0] || (a[0] == b[0] && Less(a[1..], b[1..])))
  }

  lemma {:induction false} LessTotal(a: bytes, b: bytes)
    ensures Less(a, b) || a == b || Less(b, a)
  {
    if a != [] && b != [] && a[0] == b[0] {
      LessTotal(a[1..], b[1..]);
      assert a == [a[0]] + a[1..] && b == [b[0]] + b[1..];
    }
  }

  lemma {:induction false} LessTransitive(a: bytes, b: bytes, c: bytes)
    requires Less(a, b) && Less(b, c)
    ensures Less(a, c)
  {
    if a != [] && a[0] == b[0] == c[0] {
      LessTransitive(a[1..], b[1..], c[1..]);
    }
  }

  lemma {:induction false} LessIrreflexive(a: bytes)
    ensures !Less(a, a)
  {
    if a != [] {
      LessIrreflexive(a[1..]);
    }
  }

  lemma {:induction false} PrefixLess(a: bytes, b: bytes)
    requires a <= b && a != b
    ensures Less(a, b)
  {
    if a != [] {
      assert a[1..] <= b[1..];
      assert a == [a[0]] + a[1..] && b == [b[0]] + b[1..];
      PrefixLess(a[1..], b[1..]);
    }
  }
}
