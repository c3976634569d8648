/** A live session given up while it is the only one: the table still holds 1023 that expired since the last sweep. */
module PairingEviction {
  import opened Wrappers
  import opened PairingAuth
  import opened PairingHistory

  const CODE := "0000"
  const OTHERS := MAX_SESSIONS - 1

  function Name(i: nat): (token: string)
    ensures |token| == i
  {
    seq(i, _ => 'x')
  }

  /** Sessions that are all issued at time zero. */
  function Issued(n: nat): (calls: seq<Call>)
    ensures |calls| == n && forall i :: 0 <= i < n ==> calls[i].now == 0
  {
    if n == 0 then [] else Issued(n - 1) + [Pair(CODE, 0, Name(n - 1), "")]
  }

  function Table(n: nat): map<string, int> {
    if n == 0 then map[] else Table(n - 1)[Name(n - 1) := SESSION_MAX_AGE]
  }

  lemma {:induction false} TableFacts(n: nat)
    ensures |Table(n)| == n
    ensures forall token :: token in Table(n) ==> |token| < n && Table(n)[token] == SESSION_MAX_AGE
  {
    if n > 0 {
      TableFacts(n - 1);
      assert Table(n).Keys == Table(n - 1).Keys + {Name(n - 1)};
    }
  }

  lemma {:induction false} IssuedTable(n: nat)
    requires n <= OTHERS
    ensures Possible(CODE, Issued(n))
    ensures Run(Some(CODE), Issued(n)) == Records(Table(n), [], if n == 0 then None else Some(CLEANUP_INTERVAL))
  {
    if n > 0 {
      IssuedTable(n - 1);
      var calls := Issued(n);
      assert calls[..n - 1] == Issued(n - 1) && calls[n - 1] == Pair(CODE, 0, Name(n - 1), "");
      hide Issued;
      var r := Run(Some(CODE), Issued(n - 1));
      TableFacts(n - 1);
      SweptAtStart(r, Table(n - 1));
      PlainPairing(r, calls[n - 1]);
      hide AfterPair, Evicted;
    }
  }

  lemma SweptAtStart(r: Records, table: map<string, int>)
    requires r == Records(table, [], if table == map[] then None else Some(CLEANUP_INTERVAL))
    ensures Sweep(r, 0) == Records(table, [], Some(CLEANUP_INTERVAL))
  {
  }

  /** A pairing that finds no failures and a table with room. */
  lemma PlainPairing(r: Records, call: Call)
    requires r.failures == [] && call.Pair? && call.code == CODE && |Sweep(r, call.now).sessions| < MAX_SESSIONS
    ensures Evicted(CODE, r, call).None?
    ensures var swept := Sweep(r, call.now);
            AfterPair(CODE, r, call) == swept.(sessions := swept.sessions[call.token := call.now + SESSION_MAX_AGE])
  {
    hide Sweep;
  }

  const LIVE := Pair(CODE, SECOND, Name(OTHERS), "")
  const LOOK := Query(Some(Name(0)), SESSION_MAX_AGE - SECOND)
  const NEXT := Pair(CODE, SESSION_MAX_AGE, Name(OTHERS + 1), LIVE.token)

  lemma LiveIssued()
    ensures var calls := Issued(OTHERS) + [LIVE];
            && Possible(CODE, calls)
            && Run(Some(CODE), calls) ==
               Records(Table(OTHERS)[LIVE.token := SESSION_MAX_AGE + SECOND], [], Some(CLEANUP_INTERVAL))
  {
    IssuedTable(OTHERS);
    TableFacts(OTHERS);
    var calls := Issued(OTHERS) + [LIVE];
    assert calls[..OTHERS] == Issued(OTHERS) && calls[OTHERS] == LIVE;
    hide Table, Issued;
    var r := Run(Some(CODE), Issued(OTHERS));
    PlainPairing(r, LIVE);
    hide AfterPair, Evicted;
  }

  /** The look sweeps the table a second before the others expire, and finds every session valid. */
  lemma TableSwept()
    ensures var calls := Issued(OTHERS) + [LIVE, LOOK];
            && Possible(CODE, calls)
            && Run(Some(CODE), calls) ==
               Records(Table(OTHERS)[LIVE.token := SESSION_MAX_AGE + SECOND], [], Some(LOOK.now + CLEANUP_INTERVAL))
  {
    LiveIssued();
    TableFacts(OTHERS);
    var calls := Issued(OTHERS) + [LIVE, LOOK];
    assert calls[..OTHERS + 1] == Issued(OTHERS) + [LIVE] && calls[OTHERS + 1] == LOOK;
    var table := Table(OTHERS)[LIVE.token := SESSION_MAX_AGE + SECOND];
    assert (map token | token in table && table[token] > LOOK.now :: table[token]) == table;
    hide Issued, Table;
  }

  /** The pairing at the moment when 1023 sessions have just expired evicts the one that has not. */
  lemma LiveSessionEvicted() returns (calls: seq<Call>, next: Call, live: string)
    ensures next.Pair? && Possible(CODE, calls + [next])
    ensures forall token :: QueryAnswer(Some(CODE), Run(Some(CODE), calls), Some(token), next.now) <==> token == live
    ensures Evicted(CODE, Run(Some(CODE), calls), next) == Some(live)
  {
    calls, next, live := Issued(OTHERS) + [LIVE, LOOK], NEXT, LIVE.token;
    TableSwept();
    TableFacts(OTHERS);
    var table := Table(OTHERS)[live := SESSION_MAX_AGE + SECOND];
    assert live !in Table(OTHERS);
    assert table.Keys == Table(OTHERS).Keys + {live};
    assert |table| == MAX_SESSIONS;
    assert (calls + [next])[..|calls|] == calls;
    hide Issued, Table;
  }
}
