/**
 * `GET /api/security/logs` (server/server.js): a teacher's query is `{}`,
 * anyone else's is `{ user: req.user.name }`; the matches are sorted newest
 * first and cut to one hundred. Visibility is by display name, not by id.
 */
module SecurityLogs {
  import opened Types
  import opened Collections
  import opened ServerState

  /** `.limit(100)`. */
  const LOG_LIMIT: nat := 100

  /** The query a caller's claims select; `{ user: undefined }` matches events without a user. */
  function VisibleTo(c: Claims): SecurityEvent -> bool {
    (e: SecurityEvent) => c.role == Teacher || e.user == c.name
  }

  function Logs(st: Store, cred: Credential): (r: Outcome<seq<SecurityEvent>>)
    ensures r.Ok? <==> Authenticate(st, cred).Authenticated?
    ensures r.Ok? ==> |r.value| <= LOG_LIMIT
    ensures r.Ok? ==> SortedDesc(r.value, EventTime)
    ensures r.Ok? && cred.claims.role == Student ==> forall i :: 0 <= i < |r.value| ==> r.value[i].user == cred.claims.name
    ensures r.Ok? ==> multiset(r.value) <= multiset(st.securityLog)
  {
    match Authenticate(st, cred)
    case Rejected(s, m) => Fail(s, m)
    case Authenticated(c) =>
      var selected := Select(st.securityLog, VisibleTo(c), EventTime);
      SelectSubMultiset(st.securityLog, VisibleTo(c), EventTime);
      TakeSubMultiset(selected, LOG_LIMIT);
      Ok(Take(selected, LOG_LIMIT))
  }

  /** A teacher's reply holds every logged event, as long as there are at most a hundred. */
  lemma TeacherSeesAll(st: Store, c: Claims)
    requires Registered(st, c.id) && c.role == Teacher
    requires |st.securityLog| <= LOG_LIMIT
    ensures Logs(st, Bearer(c)).Ok?
    ensures multiset(Logs(st, Bearer(c)).value) == multiset(st.securityLog)
  {
    var selected := Select(st.securityLog, VisibleTo(c), EventTime);
    assert multiset(selected) == multiset(st.securityLog);
    assert |selected| == |multiset(selected)|;
  }

  /**
   * A student's reply is exactly the events whose user equals the student's
   * name (at most a hundred of them), whoever they were written for.
   */
  lemma StudentSeesOwnName(st: Store, c: Claims)
    requires Registered(st, c.id) && c.role == Student
    requires |Filter(st.securityLog, VisibleTo(c))| <= LOG_LIMIT
    ensures Logs(st, Bearer(c)).Ok?
    ensures forall e :: multiset(Logs(st, Bearer(c)).value)[e] == if e.user == c.name then multiset(st.securityLog)[e] else 0
  {
    var selected := Select(st.securityLog, VisibleTo(c), EventTime);
    FilterCounts(st.securityLog, VisibleTo(c));
    assert multiset(selected) == multiset(Filter(st.securityLog, VisibleTo(c)));
    assert |selected| == |Filter(st.securityLog, VisibleTo(c))| by {
      assert |selected| == |multiset(selected)|;
      assert |Filter(st.securityLog, VisibleTo(c))| == |multiset(Filter(st.securityLog, VisibleTo(c)))|;
    }
  }

  /**
   * The reply holds every visible event while there are at most a hundred,
   * and exactly a hundred once there are more.
   */
  lemma LogsSize(st: Store, c: Claims)
    requires Registered(st, c.id)
    ensures Logs(st, Bearer(c)).Ok?
    ensures var visible := |Filter(st.securityLog, VisibleTo(c))|;
      |Logs(st, Bearer(c)).value| == if visible <= LOG_LIMIT then visible else LOG_LIMIT
  {
    var selected := Select(st.securityLog, VisibleTo(c), EventTime);
    SelectSubMultiset(st.securityLog, VisibleTo(c), EventTime);
    FilterCounts(st.securityLog, VisibleTo(c));
    assert multiset(selected) == multiset(Filter(st.securityLog, VisibleTo(c)));
    assert |selected| == |Filter(st.securityLog, VisibleTo(c))| by {
      assert |selected| == |multiset(selected)|;
      assert |Filter(st.securityLog, VisibleTo(c))| == |multiset(Filter(st.securityLog, VisibleTo(c)))|;
    }
  }

  /** Events cut by the limit are never newer than the events returned. */
  lemma LimitKeepsNewest(st: Store, c: Claims)
    requires Registered(st, c.id)
    ensures Logs(st, Bearer(c)).Ok?
    ensures forall x, y ::
      (x in Logs(st, Bearer(c)).value && y in st.securityLog && VisibleTo(c)(y) && y !in Logs(st, Bearer(c)).value)
        ==> y.timestamp <= x.timestamp
  {
    var selected := Select(st.securityLog, VisibleTo(c), EventTime);
    SelectMembership(st.securityLog, VisibleTo(c), EventTime);
    TakeKeepsNewest(selected, LOG_LIMIT, EventTime);
  }

  /**
   * Two students with the same name (or two tokens without one) see the
   * same events: the query never looks at the caller's id.
   */
  lemma NameDecidesVisibility(st: Store, c1: Claims, c2: Claims)
    requires Registered(st, c1.id) && Registered(st, c2.id)
    requires c1.role == Student && c2.role == Student && c1.name == c2.name
    ensures Logs(st, Bearer(c1)) == Logs(st, Bearer(c2))
  {
    assert VisibleTo(c1) == VisibleTo(c2);
  }
}
