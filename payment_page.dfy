/** The purchase handler of the payment screen: the new end date of a subscription,
    anchored at the later of the stored end date and server time and extended by the
    product bought, and the overwrite of the user's node that records it. The store's
    purchase flow is an input: whether it produced a purchase is a parameter. */
module PaymentPage {
  import opened Wrappers
  import opened IsoDate
  import opened FirebaseConfig

  /** The product that adds one calendar month. */
  const MonthlyProduct: string := "com.example.product1"
  /** The product that adds seven days. */
  const WeeklyProduct: string := "com.example.product2"
  /** The other product offered on iOS, which no branch extends. */
  const IosProduct: string := "com.example.product0"

  /** `newSubscriptionEndDate` before the product is applied: the later of the stored
      `subscriptionDate` and server time, or server time when there is none. */
  function RenewalAnchor(stored: Option<UserRecord>, now: Instant): (anchor: Instant)
    ensures anchor >= now
    ensures stored.Some? && stored.value.subscriptionDate.Some? ==> anchor >= stored.value.subscriptionDate.value
    ensures anchor == now || (stored.Some? && stored.value.subscriptionDate == Some(anchor))
  {
    if stored.Some? && stored.value.subscriptionDate.Some? then
      var currentEndDate := stored.value.subscriptionDate.value;
      if currentEndDate > now then currentEndDate else now
    else
      now
  }

  /** `setMonth(getMonth() + 1)` for the monthly product, `setDate(getDate() + 7)` for
      the weekly one, and nothing for any other id. */
  function ExtendFrom(anchor: Instant, productId: string): int {
    if productId == MonthlyProduct then AddOneMonth(anchor)
    else if productId == WeeklyProduct then AddDays(anchor, 7)
    else anchor
  }

  /** The monthly product adds the length of the anchor's month (28 to 31 days), the
      weekly one exactly seven days, and every other product nothing. */
  lemma ExtensionByProduct(anchor: Instant, productId: string)
    ensures productId == MonthlyProduct ==>
              var c := CivilFromDays(DayNumber(anchor));
              && ExtendFrom(anchor, productId) == anchor + DaysInMonth(c.year, c.month) * MsPerDay
              && anchor + 28 * MsPerDay <= ExtendFrom(anchor, productId) <= anchor + 31 * MsPerDay
    ensures productId == WeeklyProduct ==> ExtendFrom(anchor, productId) == anchor + 7 * MsPerDay
    ensures productId != MonthlyProduct && productId != WeeklyProduct ==> ExtendFrom(anchor, productId) == anchor
  {
  }

  /** The new end date is never before server time nor before the stored end date. */
  lemma EndNeverEarlier(stored: Option<UserRecord>, now: Instant, productId: string)
    ensures var end := ExtendFrom(RenewalAnchor(stored, now), productId);
            && end >= now
            && (stored.Some? && stored.value.subscriptionDate.Some? ==> end >= stored.value.subscriptionDate.value)
  {
    ExtensionByProduct(RenewalAnchor(stored, now), productId);
  }

  /** An unexpired subscription is extended from its old end, a lapsed one (or none)
      from server time. */
  lemma StackingOnUnexpired(rec: UserRecord, now: Instant, productId: string)
    requires rec.subscriptionDate.Some?
    ensures rec.subscriptionDate.value > now ==>
              ExtendFrom(RenewalAnchor(Some(rec), now), productId) == ExtendFrom(rec.subscriptionDate.value, productId)
    ensures rec.subscriptionDate.value <= now ==>
              ExtendFrom(RenewalAnchor(Some(rec), now), productId) == ExtendFrom(now, productId)
  {
  }

  /** The node `set` writes: these three children and no others. */
  function PurchasedRecord(productId: string, end: Instant): (rec: UserRecord)
    ensures rec.subscriptionType == Some(productId) && rec.subscriptionDate == Some(end)
    ensures rec.subscriptionPaid == Some(true)
    ensures rec.email.None? && rec.apiUsage == map[] && rec.subscription.None?
  {
    UserRecord(None, Some(true), map[], None, Some(productId), Some(end))
  }

  /** The overwrite drops the day's count: the next quota check sees no requests and
      admits up to the whole limit. It also drops the `subscription` child, so
      `checkSubscriptionActive` reads false, and it leaves the paid flag set. */
  lemma PurchaseResetsUserNode(users: map<string, UserRecord>, uid: string, productId: string, end: Instant,
                               date: string, number: nat, now: Instant)
    ensures var after := users[uid := PurchasedRecord(productId, end)];
            && RequestsToday(after[uid], date) == 0
            && (UsageGate(after, Some(uid), date, number, NoFault).allowed <==> number <= RequestLimit)
            && !ActiveAt(Lookup(after, uid), now)
  {
    ExistingNodeDecision(users[uid := PurchasedRecord(productId, end)], uid, date, number);
  }

  /** The end date `handlePurchase` computes from the user's snapshot: the later of the
      stored end date and server time, moved on by the product bought. */
  method NewSubscriptionEndDate(userSnapshot: Option<UserRecord>, now: Instant, productId: string)
    returns (newSubscriptionEndDate: int)
    ensures newSubscriptionEndDate == ExtendFrom(RenewalAnchor(userSnapshot, now), productId)
    ensures newSubscriptionEndDate >= now
    ensures userSnapshot.Some? && userSnapshot.value.subscriptionDate.Some? ==>
              newSubscriptionEndDate >= userSnapshot.value.subscriptionDate.value
  {
    if userSnapshot.Some? && userSnapshot.value.subscriptionDate.Some? {
      var currentEndDate := userSnapshot.value.subscriptionDate.value;
      newSubscriptionEndDate := if currentEndDate > now then currentEndDate else now;
    } else {
      newSubscriptionEndDate := now;
    }
    if productId == MonthlyProduct {
      newSubscriptionEndDate := AddOneMonth(newSubscriptionEndDate);
    } else if productId == WeeklyProduct {
      newSubscriptionEndDate := AddDays(newSubscriptionEndDate, 7);
    }
  }

  /** How `handlePurchase` ends: the success alert, the failure alert, or the alert about
      server time. */
  datatype PurchaseOutcome = Recorded | PurchaseFailed | ServerTimeUnavailable

  /** `handlePurchase(productId)` with `user` the signed-in user, if any. `purchased` is
      whether the store returned a purchase and finished the transaction; `fault` is the
      failure of the read or of the write. An end date outside the range of `Date` makes
      `toISOString` throw, which the handler reports as a failed purchase. */
  method HandlePurchase(db: UserRecordStore, productId: string, purchased: bool, serverTime: Option<Instant>,
                        user: Option<string>, fault: StoreFault)
    returns (outcome: PurchaseOutcome)
    requires db.Valid()
    modifies db
    ensures db.Valid()
    ensures outcome != Recorded ==> db.users == old(db.users)
    ensures !purchased ==> outcome == PurchaseFailed
    ensures purchased && serverTime.None? ==> outcome == ServerTimeUnavailable
    ensures purchased && serverTime.Some? && user.None? ==> outcome == PurchaseFailed
    ensures purchased && serverTime.Some? && user.Some? ==>
              var end := ExtendFrom(RenewalAnchor(Lookup(old(db.users), user.value), serverTime.value), productId);
              if fault == NoFault && IsTimeValue(end) then
                outcome == Recorded && db.users == old(db.users)[user.value := PurchasedRecord(productId, end)]
              else
                outcome == PurchaseFailed
  {
    if !purchased {
      return PurchaseFailed;
    }
    if serverTime.None? {
      return ServerTimeUnavailable;
    }
    var now := serverTime.value;
    if user.None? {
      return PurchaseFailed;
    }
    var uid := user.value;
    if fault == ReadFails {
      return PurchaseFailed;
    }
    var userSnapshot := Lookup(db.users, uid);
    var newSubscriptionEndDate := NewSubscriptionEndDate(userSnapshot, now, productId);
    if !IsTimeValue(newSubscriptionEndDate) || fault == WriteFails {
      return PurchaseFailed;
    }
    db.users := db.users[uid := PurchasedRecord(productId, newSubscriptionEndDate)];
    outcome := Recorded;
  }

  /** The handler as the component has it: its `user` state starts as `null` and no code
      ever sets it, so every purchase stops at the authentication check. */
  method HandlePurchaseAsWritten(db: UserRecordStore, productId: string, purchased: bool,
                                 serverTime: Option<Instant>, fault: StoreFault)
    returns (outcome: PurchaseOutcome)
    requires db.Valid()
    modifies db
    ensures db.Valid()
    ensures outcome != Recorded && db.users == old(db.users)
  {
    var user: Option<string> := None;
    outcome := HandlePurchase(db, productId, purchased, serverTime, user, fault);
  }
}
