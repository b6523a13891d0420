/** Connection set-up: a server takes one control connection and `n` data connections in whatever order
    they arrive (src/control_plane.rs, `run_server`). */
module Registration {

  import opened Bytes

  datatype Role = Control | Data

  datatype Handshake = Handshake(role: Role, session: nat, stream: nat, streams: nat)

  /** The connections of a complete session, without an order. */
  function Expected(session: nat, n: nat): set<Handshake> {
    {Handshake(Control, session, 0, n)} + set i | 0 <= i < n :: Handshake(Data, session, i, n)
  }

  lemma {:induction false} DataStreams(session: nat, n: nat, k: nat)
    ensures |set i | 0 <= i < k :: Handshake(Data, session, i, n)| == k
  {
    if k > 0 {
      DataStreams(session, n, k - 1);
      assert (set i | 0 <= i < k :: Handshake(Data, session, i, n))
          == (set i | 0 <= i < k - 1 :: Handshake(Data, session, i, n)) + {Handshake(Data, session, k - 1, n)};
    }
  }

  lemma ExpectedCount(session: nat, n: nat)
    ensures |Expected(session, n)| == n + 1
  {
    DataStreams(session, n, n);
  }

  /** The first connections that arrived are, in some order, exactly those of a complete session. */
  ghost predicate Complete(arrivals: seq<Handshake>, session: nat, n: nat) {
    n + 1 <= |arrivals| && multiset(arrivals[..n + 1]) == multiset(Expected(session, n))
  }

  lemma SubsetOfSameSize<T>(a: set<T>, b: set<T>)
    requires a <= b && |a| == |b|
    ensures a == b
  {
    assert |b - a| == 0;
    assert b == a + (b - a);
  }

  /** A repeated or foreign handshake among the first connections rules out a complete session. */
  lemma NotComplete(arrivals: seq<Handshake>, session: nat, n: nat, i: nat)
    requires i <= n < |arrivals|
    requires arrivals[i] !in Expected(session, n) || arrivals[i] in arrivals[..i]
    ensures !Complete(arrivals, session, n)
  {
    var all := arrivals[..n + 1];
    assert all == all[..i] + [all[i]] + all[i + 1..];
    assert multiset(all) == multiset(all[..i]) + multiset{all[i]} + multiset(all[i + 1..]);
    assert all[..i] == arrivals[..i];
    var x := arrivals[i];
    assert x in arrivals[..i] ==> multiset(all)[x] >= 2;
    assert multiset(Expected(session, n))[x] <= 1;
    assert multiset(all)[x] >= 1;
  }

  /** Whether handshake `i` may be accepted, told from its fields. */
  lemma Screened(arrivals: seq<Handshake>, session: nat, n: nat, i: nat)
    requires i <= n && i < |arrivals|
    ensures var h := arrivals[i];
      && (h in arrivals[..i] ==> !Complete(arrivals, session, n))
      && (h.session != session || h.streams != n ==> !Complete(arrivals, session, n))
      && (h.role.Control? && h.stream != 0 ==> !Complete(arrivals, session, n))
      && (h.role.Data? && h.stream >= n ==> !Complete(arrivals, session, n))
  {
    if n < |arrivals| && (arrivals[i] !in Expected(session, n) || arrivals[i] in arrivals[..i]) {
      NotComplete(arrivals, session, n, i);
    }
  }

  /** A complete session without multisets: the first connections that arrived are the control connection with
      ID 0 and one data connection for each ID, all with the right session and stream count, and none of
      these came twice. */
  lemma CompleteMeans(arrivals: seq<Handshake>, session: nat, n: nat)
    ensures Complete(arrivals, session, n) <==>
      && n < |arrivals|
      && (exists c | 0 <= c <= n :: arrivals[c] == Handshake(Control, session, 0, n))
      && (forall d | 0 <= d < n :: Handshake(Data, session, d, n) in arrivals[..n + 1])
  {
    if n < |arrivals| {
      var all := arrivals[..n + 1];
      if Complete(arrivals, session, n) {
        var c := ControlArrived(arrivals, session, n);
        forall d | 0 <= d < n
          ensures Handshake(Data, session, d, n) in all
        {
          assert Handshake(Data, session, d, n) in multiset(all);
        }
      }
      if (exists c | 0 <= c <= n :: arrivals[c] == Handshake(Control, session, 0, n))
         && (forall d | 0 <= d < n :: Handshake(Data, session, d, n) in all)
      {
        AllPresent(all, session, n);
      }
    }
  }

  /** `n + 1` connections among which every member of a session is present are the session. */
  lemma AllPresent(all: seq<Handshake>, session: nat, n: nat)
    requires |all| == n + 1 && forall h <- Expected(session, n) :: h in all
    ensures multiset(all) == multiset(Expected(session, n))
  {
    ExpectedCount(session, n);
    var missing := multiset(all) - multiset(Expected(session, n));
    assert multiset(Expected(session, n)) <= multiset(all) by {
      forall h
        ensures multiset(Expected(session, n))[h] <= multiset(all)[h]
      {
        if h in Expected(session, n) {
          assert h in multiset(all);
        }
      }
    }
    assert |multiset(all)| == |all| && |multiset(Expected(session, n))| == n + 1;
    assert |missing| == 0;
  }

  /** The first `i` connections are different members of a complete session. */
  ghost predicate Distinct(arrivals: seq<Handshake>, i: nat, session: nat, n: nat) {
    && i <= |arrivals|
    && (forall k | 0 <= k < i :: arrivals[k] in Expected(session, n))
    && (forall j, k | 0 <= j < k < i :: arrivals[j] != arrivals[k])
  }

  lemma {:induction false} DistinctIsASet(s: seq<Handshake>)
    requires forall j, k | 0 <= j < k < |s| :: s[j] != s[k]
    ensures multiset(s) == multiset(set k | 0 <= k < |s| :: s[k])
    ensures |set k | 0 <= k < |s| :: s[k]| == |s|
  {
    if s != [] {
      var init, x := s[..|s| - 1], s[|s| - 1];
      DistinctIsASet(init);
      assert s == init + [x];
      assert (set k | 0 <= k < |s| :: s[k]) == (set k | 0 <= k < |init| :: init[k]) + {x};
      assert x !in set k | 0 <= k < |init| :: init[k];
    }
  }

  /** `n + 1` different members of a session of `n + 1` connections are the session. */
  lemma DistinctIsComplete(arrivals: seq<Handshake>, session: nat, n: nat)
    requires Distinct(arrivals, n + 1, session, n)
    ensures Complete(arrivals, session, n)
  {
    var all := arrivals[..n + 1];
    DistinctIsASet(all);
    ExpectedCount(session, n);
    SubsetOfSameSize(set k | 0 <= k < |all| :: all[k], Expected(session, n));
  }

  /** The data connections among the first `i`, in order of arrival. */
  function DataOf(arrivals: seq<Handshake>, i: nat): seq<nat>
    requires i <= |arrivals|
  {
    if i == 0 then []
    else if arrivals[i - 1].role.Data? then DataOf(arrivals, i - 1) + [i - 1]
    else DataOf(arrivals, i - 1)
  }

  /** Positions of data connections below `i`, in ascending order. */
  predicate Ascending(arrivals: seq<Handshake>, i: nat, d: seq<nat>)
    requires i <= |arrivals|
  {
    && (forall j | 0 <= j < |d| :: d[j] < i && arrivals[d[j]].role.Data?)
    && (forall j, k | 0 <= j < k < |d| :: d[j] < d[k])
  }

  /** Each of them is a data connection that arrived, and they are listed in order of arrival. */
  lemma {:induction false} DataOfMeans(arrivals: seq<Handshake>, i: nat)
    requires i <= |arrivals|
    ensures Ascending(arrivals, i, DataOf(arrivals, i))
  {
    if i > 0 {
      DataOfMeans(arrivals, i - 1);
    }
  }

  /** What the server knows after `i` accepted connections: the control connection, if any, and the IDs
      of the data connections. */
  ghost predicate Knows(arrivals: seq<Handshake>, i: nat, session: nat, n: nat, control: Option<nat>, ids: set<nat>,
                        data: seq<nat>)
  {
    && Distinct(arrivals, i, session, n)
    && (control.Some? ==> control.value < i && arrivals[control.value].role.Control?)
    && (control.None? ==> forall k | 0 <= k < i :: arrivals[k].role.Data?)
    && (forall x :: x in ids <==> Handshake(Data, session, x, n) in arrivals[..i])
    && data == DataOf(arrivals, i) && |data| + (if control.Some? then 1 else 0) == i
  }

  lemma KnowsControl(arrivals: seq<Handshake>, i: nat, session: nat, n: nat, ids: set<nat>, data: seq<nat>)
    requires i < |arrivals| && Knows(arrivals, i, session, n, None, ids, data)
    requires arrivals[i] == Handshake(Control, session, 0, n)
    ensures Knows(arrivals, i + 1, session, n, Some(i), ids, data)
  {
    assert arrivals[..i + 1] == arrivals[..i] + [arrivals[i]];
  }

  lemma KnowsData(arrivals: seq<Handshake>, i: nat, session: nat, n: nat, control: Option<nat>, ids: set<nat>,
                  data: seq<nat>)
    requires i < |arrivals| && Knows(arrivals, i, session, n, control, ids, data)
    requires var x := arrivals[i].stream; x < n && x !in ids && arrivals[i] == Handshake(Data, session, x, n)
    ensures Knows(arrivals, i + 1, session, n, control, ids + {arrivals[i].stream}, data + [i])
  {
    assert arrivals[..i + 1] == arrivals[..i] + [arrivals[i]];
  }

  lemma SecondControl(arrivals: seq<Handshake>, i: nat, session: nat, n: nat, c: nat, ids: set<nat>, data: seq<nat>)
    requires i < |arrivals| && Knows(arrivals, i, session, n, Some(c), ids, data)
    requires arrivals[i] == Handshake(Control, session, 0, n)
    ensures arrivals[i] in arrivals[..i]
  {
    assert arrivals[c] in Expected(session, n);
    assert arrivals[..i][c] == arrivals[i];
  }

  lemma ControlArrived(arrivals: seq<Handshake>, session: nat, n: nat) returns (k: nat)
    requires Complete(arrivals, session, n)
    ensures k <= n && arrivals[k] == Handshake(Control, session, 0, n)
  {
    var all := arrivals[..n + 1];
    assert Handshake(Control, session, 0, n) in multiset(all);
    k :| 0 <= k < |all| && all[k] == Handshake(Control, session, 0, n);
  }

  /** Once all `n + 1` connections have been accepted, nothing is missing. */
  lemma AllAccepted(arrivals: seq<Handshake>, session: nat, n: nat, control: Option<nat>, ids: set<nat>, data: seq<nat>)
    requires Knows(arrivals, n + 1, session, n, control, ids, data)
    ensures Complete(arrivals, session, n) && |data| == n && control.Some? && control.value <= n
    ensures arrivals[control.value] == Handshake(Control, session, 0, n)
  {
    DistinctIsComplete(arrivals, session, n);
    var c := ControlArrived(arrivals, session, n);
    assert arrivals[c].role.Control?;
    assert control.Some?;
    assert arrivals[control.value] in Expected(session, n);
  }

  /** `run_server` up to the end of its registration: it succeeds exactly when the first `n + 1`
      connections make up a complete session, in any order whatsoever. With that many accepted the two
      checks after the loop cannot fail, and neither error is ever returned. */
  method Register(arrivals: seq<Handshake>, session: nat, n: nat) returns (r: Result<(nat, seq<nat>)>)
    ensures r.Ok? <==> Complete(arrivals, session, n)
    ensures r.Ok? ==>
      && (forall d | 0 <= d < n :: Handshake(Data, session, d, n) in arrivals[..n + 1])
      && r.value.0 <= n && arrivals[r.value.0] == Handshake(Control, session, 0, n)
      && r.value.1 == DataOf(arrivals, n + 1) && |r.value.1| == n
      && (forall i | 0 <= i < n :: r.value.1[i] <= n && arrivals[r.value.1[i]].role.Data?)
      && (forall i, j | 0 <= i < j < n :: r.value.1[i] < r.value.1[j])
    ensures r.Err? && n < |arrivals| ==> r.error in {InvalidData, AlreadyExists}
  {
    var control: Option<nat>, data: seq<nat>, ids: set<nat> := None, [], {};
    for i := 0 to n + 1
      invariant Knows(arrivals, i, session, n, control, ids, data)
    {
      if |arrivals| <= i {
        return Err(Fault);
      }
      var h := arrivals[i];
      Screened(arrivals, session, n, i);
      if h.session != session || h.streams != n {
        return Err(InvalidData);
      }
      match h.role
      case Control =>
        if h.stream != 0 {
          return Err(InvalidData);
        }
        if control.Some? {
          SecondControl(arrivals, i, session, n, control.value, ids, data);
          return Err(AlreadyExists);
        }
        KnowsControl(arrivals, i, session, n, ids, data);
        control := Some(i);
      case Data =>
        if h.stream >= n {
          return Err(InvalidData);
        }
        if h.stream in ids {
          return Err(AlreadyExists);
        }
        KnowsData(arrivals, i, session, n, control, ids, data);
        ids := ids + {h.stream};
        data := data + [i];
    }
    AllAccepted(arrivals, session, n, control, ids, data);
    if |data| != n {
      return Err(UnexpectedEof);
    }
    if control.None? {
      return Err(NotConnected);
    }
    CompleteMeans(arrivals, session, n);
    DataOfMeans(arrivals, n + 1);
    r := Ok((control.value, data));
  }
}
