/** The user-record store of the Realtime Database and the helpers in firebaseConfig.tsx
    that read and write it: the daily request quota (`checkApiUsageLimit`), the paid flag
    (`updatePaymentStatus`, `checkSubscriptionStatus`) and the `subscription` node
    (`recordSubscription`, `checkSubscriptionActive`).

    The database is a map from user id to the node `users/<uid>`; a node that does not
    exist is a missing key. Server time is an input (`None` when it could not be fetched),
    and so is the failure of a read or a write. Each call is one atomic step. */
module FirebaseConfig {
  import opened Wrappers
  import opened IsoDate

  /** `users/<uid>/subscription` as `recordSubscription` writes it; the two dates are the
      time values that the stored ISO strings denote. */
  datatype SubscriptionNode = SubscriptionNode(planType: string, startDate: Instant, expirationDate: Instant)

  /** `users/<uid>`: every child is absent or present. `apiUsage` maps a date key to the
      number of requests made that day; an empty map is an absent `apiUsage`. */
  datatype UserRecord = UserRecord(
    email: Option<string>,
    subscriptionPaid: Option<bool>,
    apiUsage: map<string, nat>,
    subscription: Option<SubscriptionNode>,
    subscriptionType: Option<string>,
    subscriptionDate: Option<Instant>)

  /** A node without children, which the database does not keep. */
  const EmptyRecord: UserRecord := UserRecord(None, None, map[], None, None, None)

  /** Which database call of an operation throws, if any. */
  datatype StoreFault = NoFault | ReadFails | WriteFails

  /** Requests a user may make per day. */
  const RequestLimit: int := 5

  /** Thirty days in milliseconds, the length `recordSubscription` gives every subscription. */
  const SubscriptionDuration: int := 30 * 24 * 60 * 60 * 1000

  /** The node of `uid`, if it exists. */
  function Lookup(users: map<string, UserRecord>, uid: string): Option<UserRecord> {
    if uid in users then Some(users[uid]) else None
  }

  /** The node of `uid` for a partial write: a write below a missing node creates it. */
  function NodeOrEmpty(users: map<string, UserRecord>, uid: string): UserRecord {
    if uid in users then users[uid] else EmptyRecord
  }

  /** `apiUsage[currentDate] || 0`. */
  function RequestsToday(rec: UserRecord, date: string): nat {
    if date in rec.apiUsage then rec.apiUsage[date] else 0
  }

  /** The day the ledger counts against: the server's UTC date, or the device's own clock
      when server time is unavailable. */
  function UsageDate(serverTime: Option<Instant>, deviceTime: Instant): string {
    DateKey(if serverTime.Some? then serverTime.value else deviceTime)
  }

  // ---- checkApiUsageLimit ----

  /** Outcome of one quota check: the returned verdict, the `DAY_LIMIT_NUMBER` payload it
      dispatched (if it dispatched one) and the database afterwards. */
  datatype GateResult = GateResult(allowed: bool, dayLimitNumber: Option<int>, users: map<string, UserRecord>)

  /** What `checkApiUsageLimit(number)` does for `currentUser` on day `date`. */
  function UsageGate(users: map<string, UserRecord>, currentUser: Option<string>, date: string,
                     number: nat, fault: StoreFault): GateResult
  {
    if currentUser.None? || fault == ReadFails then GateResult(false, None, users)
    else
      var uid := currentUser.value;
      if uid !in users then
        if fault == WriteFails then GateResult(false, None, users)
        else GateResult(true, None, users[uid := EmptyRecord.(apiUsage := map[date := number])])
      else
        var requestsToday := RequestsToday(users[uid], date);
        var remaining := Some(RequestLimit - requestsToday);
        if requestsToday + number > RequestLimit || requestsToday >= RequestLimit then
          GateResult(false, remaining, users)
        else if fault == WriteFails then GateResult(false, remaining, users)
        else GateResult(true, remaining,
                        users[uid := users[uid].(apiUsage := users[uid].apiUsage[date := requestsToday + number])])
  }

  /** The database keeps no node without children. */
  predicate NoEmptyNodes(users: map<string, UserRecord>) {
    forall uid :: uid in users ==> users[uid] != EmptyRecord
  }

  /** The gate never leaves a childless node behind: a node it creates or updates holds
      today's count. */
  lemma GateKeepsNoEmptyNodes(users: map<string, UserRecord>, currentUser: Option<string>, date: string,
                              number: nat, fault: StoreFault)
    requires NoEmptyNodes(users)
    ensures NoEmptyNodes(UsageGate(users, currentUser, date, number, fault).users)
  {
    var after := UsageGate(users, currentUser, date, number, fault).users;
    if currentUser.Some? && currentUser.value in after {
      assert date in after[currentUser.value].apiUsage || after == users;
    }
  }

  /** Without a signed-in user, or when the read or the write throws, the gate says no and
      touches nothing. Only a failed write on an existing node has dispatched the headroom,
      since that is read before the write. */
  lemma GateFailsClosed(users: map<string, UserRecord>, currentUser: Option<string>, date: string,
                        number: nat, fault: StoreFault)
    requires currentUser.None? || fault != NoFault
    ensures var r := UsageGate(users, currentUser, date, number, fault);
            && !r.allowed && r.users == users
            && r.dayLimitNumber ==
                 if currentUser.Some? && fault == WriteFails && currentUser.value in users
                 then Some(RequestLimit - RequestsToday(users[currentUser.value], date))
                 else None
  {
  }

  /** A user without a node gets one holding only today's count, and the call is admitted
      without comparing `number` with the limit. */
  lemma FirstCallSkipsLimit(users: map<string, UserRecord>, uid: string, date: string, number: nat)
    requires uid !in users
    ensures var r := UsageGate(users, Some(uid), date, number, NoFault);
            r.allowed && r.dayLimitNumber.None? &&
            r.users == users[uid := UserRecord(None, None, map[date := number], None, None, None)]
  {
  }

  /** On an existing node the dispatched headroom is the limit minus the count read before
      the request; the call is refused exactly when the request would pass the limit or the
      limit is already reached, and a refusal writes nothing. */
  lemma ExistingNodeDecision(users: map<string, UserRecord>, uid: string, date: string, number: nat)
    requires uid in users
    ensures var r := UsageGate(users, Some(uid), date, number, NoFault);
            var before := RequestsToday(users[uid], date);
            && r.dayLimitNumber == Some(RequestLimit - before)
            && (r.allowed <==> before + number <= RequestLimit && before < RequestLimit)
            && (!r.allowed ==> r.users == users)
  {
  }

  /** An admitted call changes one field, `apiUsage/<date>`, of one node: other users,
      other days and other fields are as they were. */
  lemma AdmittedCallWritesOneField(users: map<string, UserRecord>, uid: string, date: string,
                                   number: nat, fault: StoreFault)
    requires UsageGate(users, Some(uid), date, number, fault).allowed
    ensures var after := UsageGate(users, Some(uid), date, number, fault).users;
            && after.Keys == users.Keys + {uid}
            && (forall u :: u in users && u != uid ==> after[u] == users[u])
            && after[uid].apiUsage.Keys == NodeOrEmpty(users, uid).apiUsage.Keys + {date}
            && RequestsToday(after[uid], date) == RequestsToday(NodeOrEmpty(users, uid), date) + number
            && (forall d :: d != date ==> RequestsToday(after[uid], d) == RequestsToday(NodeOrEmpty(users, uid), d))
            && after[uid].(apiUsage := map[]) == NodeOrEmpty(users, uid).(apiUsage := map[])
  {
  }

  /** On an existing node a count within the limit stays within it, whatever is asked. */
  lemma LimitPreserved(users: map<string, UserRecord>, uid: string, date: string, number: nat, fault: StoreFault)
    requires uid in users && RequestsToday(users[uid], date) <= RequestLimit
    ensures var after := UsageGate(users, Some(uid), date, number, fault).users;
            uid in after && RequestsToday(after[uid], date) <= RequestLimit
  {
  }

  /** A call for no requests is admitted exactly while the limit is not reached, and it
      leaves the count where it was. */
  lemma ZeroRequestCall(users: map<string, UserRecord>, uid: string, date: string)
    requires uid in users
    ensures var r := UsageGate(users, Some(uid), date, 0, NoFault);
            && (r.allowed <==> RequestsToday(users[uid], date) < RequestLimit)
            && RequestsToday(r.users[uid], date) == RequestsToday(users[uid], date)
  {
  }

  function Sum(ns: seq<nat>): nat {
    if ns == [] then 0 else ns[0] + Sum(ns[1..])
  }

  /** The verdicts and final database of successive calls by one user on one day. */
  function RunCalls(users: map<string, UserRecord>, uid: string, date: string, ns: seq<nat>): (seq<bool>, map<string, UserRecord>)
    decreases |ns|
  {
    if ns == [] then ([], users)
    else
      var r := UsageGate(users, Some(uid), date, ns[0], NoFault);
      var rest := RunCalls(r.users, uid, date, ns[1..]);
      ([r.allowed] + rest.0, rest.1)
  }

  /** Calls of at least one request each whose total stays within the limit are all
      admitted, and the day's count ends at the starting count plus that total. */
  lemma {:induction false} CallsWithinLimitAllAdmitted(users: map<string, UserRecord>, uid: string, date: string, ns: seq<nat>)
    requires uid in users
    requires forall i :: 0 <= i < |ns| ==> ns[i] >= 1
    requires RequestsToday(users[uid], date) + Sum(ns) <= RequestLimit
    ensures var (verdicts, after) := RunCalls(users, uid, date, ns);
            && |verdicts| == |ns| && (forall i :: 0 <= i < |ns| ==> verdicts[i])
            && uid in after && RequestsToday(after[uid], date) == RequestsToday(users[uid], date) + Sum(ns)
    decreases |ns|
  {
    if ns != [] {
      var r := UsageGate(users, Some(uid), date, ns[0], NoFault);
      assert r.allowed && RequestsToday(r.users[uid], date) == RequestsToday(users[uid], date) + ns[0];
      CallsWithinLimitAllAdmitted(r.users, uid, date, ns[1..]);
      var rest := RunCalls(r.users, uid, date, ns[1..]);
      assert RunCalls(users, uid, date, ns) == ([true] + rest.0, rest.1);
    }
  }

  /** Once a request would pass the limit it is refused, and so is every repetition of it
      that day, none of them writing anything. */
  lemma {:induction false} RefusalIsStable(users: map<string, UserRecord>, uid: string, date: string, number: nat, k: nat)
    requires uid in users
    requires RequestsToday(users[uid], date) + number > RequestLimit
    ensures var (verdicts, after) := RunCalls(users, uid, date, seq(k, _ => number));
            && (forall i :: 0 <= i < |verdicts| ==> !verdicts[i])
            && after == users
    decreases k
  {
    if k > 0 {
      assert seq(k, _ => number)[1..] == seq(k - 1, _ => number);
      RefusalIsStable(users, uid, date, number, k - 1);
    }
  }

  /** Calls on one UTC day do not touch the count of another day: the count restarts with
      the date. */
  lemma OtherDayUntouched(users: map<string, UserRecord>, uid: string, t1: Instant, t2: Instant,
                          number: nat, fault: StoreFault)
    requires DayNumber(t1) != DayNumber(t2)
    ensures var after := UsageGate(users, Some(uid), DateKey(t1), number, fault).users;
            && (uid in users ==> uid in after)
            && RequestsToday(NodeOrEmpty(after, uid), DateKey(t2)) == RequestsToday(NodeOrEmpty(users, uid), DateKey(t2))
  {
    DateKeySameDayIff(t1, t2);
  }

  // ---- subscriptions ----

  /** `expirationDate > serverTime` on the node's `subscription` child; false without one. */
  predicate ActiveAt(rec: Option<UserRecord>, now: Instant) {
    rec.Some? && rec.value.subscription.Some? && rec.value.subscription.value.expirationDate > now
  }

  /** The `subscription` child `recordSubscription` writes at server time `now`. */
  function NewSubscription(planType: string, now: Instant): (node: SubscriptionNode)
    requires IsTimeValue(now + SubscriptionDuration)
    ensures node.startDate == now && node.expirationDate - node.startDate == SubscriptionDuration
  {
    SubscriptionNode(planType, now, now + SubscriptionDuration)
  }

  /** A subscription recorded at `now` is active exactly until thirty days later, whatever
      the node held before (no stacking). */
  lemma RecordedSubscriptionWindow(rec: UserRecord, planType: string, now: Instant, t: Instant)
    requires IsTimeValue(now + SubscriptionDuration)
    ensures ActiveAt(Some(rec.(subscription := Some(NewSubscription(planType, now)))), t)
            <==> t < now + SubscriptionDuration
  {
  }

  /** The database with its user nodes. Invariant: the database keeps no node without children. */
  class UserRecordStore {
    var users: map<string, UserRecord>

    ghost predicate Valid()
      reads this
    {
      NoEmptyNodes(users)
    }

    constructor ()
      ensures Valid() && users == map[]
    {
      users := map[];
    }

    /** `checkApiUsageLimit(number, dispatch)`. */
    method CheckApiUsageLimit(currentUser: Option<string>, number: nat, serverTime: Option<Instant>,
                              deviceTime: Instant, fault: StoreFault)
      returns (allowed: bool, dayLimitNumber: Option<int>)
      requires Valid()
      modifies this
      ensures Valid()
      ensures var r := UsageGate(old(users), currentUser, UsageDate(serverTime, deviceTime), number, fault);
              allowed == r.allowed && dayLimitNumber == r.dayLimitNumber && users == r.users
    {
      GateKeepsNoEmptyNodes(users, currentUser, UsageDate(serverTime, deviceTime), number, fault);
      dayLimitNumber := None;
      if currentUser.None? {
        return false, None;
      }
      var currentDate := UsageDate(serverTime, deviceTime);
      var uid := currentUser.value;
      if fault == ReadFails {
        return false, None;
      }
      if uid !in users {
        if fault == WriteFails {
          return false, None;
        }
        var created := EmptyRecord.(apiUsage := map[currentDate := number]);
        users := users[uid := created];
        return true, None;
      }
      var userData := users[uid];
      var requestsToday := RequestsToday(userData, currentDate);
      dayLimitNumber := Some(RequestLimit - requestsToday);
      if requestsToday + number > RequestLimit {
        return false, dayLimitNumber;
      }
      if requestsToday >= RequestLimit {
        return false, dayLimitNumber;
      }
      if fault == WriteFails {
        return false, dayLimitNumber;
      }
      var updated := userData.(apiUsage := userData.apiUsage[currentDate := requestsToday + number]);
      users := users[uid := updated];
      allowed := true;
    }

    /** `updatePaymentStatus(userId, isPaid)`: writes `subscriptionPaid` and nothing else. */
    method UpdatePaymentStatus(userId: string, isPaid: bool, writeFails: bool)
      requires Valid()
      modifies this
      ensures Valid()
      ensures writeFails ==> users == old(users)
      ensures !writeFails ==> users == old(users)[userId := NodeOrEmpty(old(users), userId).(subscriptionPaid := Some(isPaid))]
    {
      if writeFails {
        return;
      }
      var node := NodeOrEmpty(users, userId);
      users := users[userId := node.(subscriptionPaid := Some(isPaid))];
    }

    /** `checkSubscriptionStatus(dispatch)`: the `SET_IS_PAID` payload dispatched, if any;
        `Some(None)` is the payload `undefined` of a node without `subscriptionPaid`. */
    function CheckSubscriptionStatus(currentUser: Option<string>, readFails: bool): (payload: Option<Option<bool>>)
      reads this
      ensures payload.None? <==> currentUser.None? || readFails
      ensures payload == Some(Some(true)) ==> currentUser.value in users && users[currentUser.value].subscriptionPaid == Some(true)
      ensures currentUser.Some? && !readFails && currentUser.value !in users ==> payload == Some(Some(false))
      ensures currentUser.Some? && !readFails && currentUser.value in users ==>
                payload == Some(users[currentUser.value].subscriptionPaid)
    {
      if currentUser.None? || readFails then None
      else if currentUser.value !in users then Some(Some(false))
      else Some(users[currentUser.value].subscriptionPaid)
    }

    /** `recordSubscription(userId, subscriptionType)`: overwrites `users/<uid>/subscription`
        with a thirty-day subscription starting at server time. Nothing is written without
        server time, when the expiry cannot be printed as a date, or when the write fails. */
    method RecordSubscription(userId: string, subscriptionType: string, serverTime: Option<Instant>, writeFails: bool)
      requires Valid()
      modifies this
      ensures Valid()
      ensures serverTime.None? || writeFails || !IsTimeValue(serverTime.value + SubscriptionDuration) ==> users == old(users)
      ensures serverTime.Some? && !writeFails && IsTimeValue(serverTime.value + SubscriptionDuration) ==>
                users == old(users)[userId := NodeOrEmpty(old(users), userId).(subscription := Some(NewSubscription(subscriptionType, serverTime.value)))]
    {
      if serverTime.None? {
        return;
      }
      var expirationDate := serverTime.value + SubscriptionDuration;
      if !IsTimeValue(expirationDate) {
        return;
      }
      var subscriptionData := SubscriptionNode(subscriptionType, serverTime.value, expirationDate);
      if writeFails {
        return;
      }
      users := users[userId := NodeOrEmpty(users, userId).(subscription := Some(subscriptionData))];
    }

    /** `checkSubscriptionActive(userId)`: true exactly when server time is known, the read
        succeeds and the `subscription` child expires strictly after server time. */
    function CheckSubscriptionActive(userId: string, serverTime: Option<Instant>, readFails: bool): (active: bool)
      reads this
      ensures active <==> serverTime.Some? && !readFails && userId in users
                          && users[userId].subscription.Some?
                          && users[userId].subscription.value.expirationDate > serverTime.value
      ensures (serverTime.Some? && userId in users && users[userId].subscription.Some?
               && users[userId].subscription.value.expirationDate == serverTime.value) ==> !active
    {
      if serverTime.None? then false
      else if readFails then false
      else ActiveAt(Lookup(users, userId), serverTime.value)
    }
  }
}
