/** What the hub records about its certificate, and when that certificate is
    due for renewal. Times are seconds since 1970 in an `i64`, with the
    saturating arithmetic the source uses. */
module TlsState {
  import opened Wrappers
  import opened Integers

  const DAY: I64 := 86_400
  const RENEWAL_LEAD: I64 := 604_800
  const UNKNOWN_LIFETIME: I64 := 2_592_000

  datatype Challenge = Http01 | Dns01

  datatype Acme = Acme(directory: string, contact: Option<string>, accountKeyPath: string, accountUrl: string,
                       challenge: Challenge, issuedAt: I64, renewAfter: I64)

  datatype TlsSource = Manual | Issued(acme: Acme)

  datatype Tls = Tls(certPath: string, keyPath: string, notAfter: Option<I64>, source: TlsSource)

  /** Two thirds of the lifetime; with no expiry, the shortest lifetime that
      might have been issued. */
  function RenewAfter(issuedAt: I64, notAfter: Option<I64>): I64 {
    match notAfter
    case None => SatAdd(issuedAt, UNKNOWN_LIFETIME)
    case Some(expiry) => Clamp(issuedAt + TruncDiv(SatMul(SatSub(expiry, issuedAt), 2), 3))
  }

  function Record(acme: Acme, at: I64, notAfter: Option<I64>): Acme {
    acme.(issuedAt := at, renewAfter := RenewAfter(at, notAfter))
  }

  function SafetyNetAt(expiry: I64, lead: I64): I64 {
    SatSub(expiry, Max(lead, 0))
  }

  predicate NetIsOpen(expiry: I64, now: I64, lead: I64) {
    now >= SafetyNetAt(expiry, lead)
  }

  function Due(renewAfter: I64, notAfter: Option<I64>, lead: I64): I64 {
    match notAfter
    case None => renewAfter
    case Some(expiry) => Min(renewAfter, SafetyNetAt(expiry, lead))
  }

  function DueAt(tls: Tls, lead: I64): Option<I64> {
    match tls.source
    case Manual => None
    case Issued(acme) => Some(Due(acme.renewAfter, tls.notAfter, lead))
  }

  predicate NeedsRenewal(tls: Tls, now: I64, lead: I64) {
    match DueAt(tls, lead)
    case None => false
    case Some(due) => now >= due
  }

  // ----------------------------------------------------------- properties

  /** The plan lies inside the certificate's life, at every pair of times an
      `i64` holds: the saturations never push it out. */
  lemma PlanLiesWithinLife(issued: I64, expiry: I64)
    requires issued <= expiry
    ensures issued <= RenewAfter(issued, Some(expiry)) <= expiry
    ensures expiry - issued <= I64_MAX / 2 ==> RenewAfter(issued, Some(expiry)) == issued + (expiry - issued) * 2 / 3
  {
    var life: int := Clamp(expiry - issued);
    assert life <= expiry - issued;
  }

  /** An expiry before the issue date puts the due time at or before the issue
      date, so that renewal is wanted at once. */
  lemma BackwardsLifeIsDueAtOnce(issued: I64, expiry: I64, acme: Acme, tls: Tls, now: I64)
    requires expiry < issued <= now
    requires tls.source == Issued(Record(acme, issued, Some(expiry))) && tls.notAfter == Some(expiry)
    ensures RenewAfter(issued, Some(expiry)) <= issued
    ensures NeedsRenewal(tls, now, RENEWAL_LEAD)
  {
    var life: int := Clamp(expiry - issued);
    assert TruncDiv(Clamp(life * 2), 3) <= 0;
  }

  /** Once the net is open the composed answer is yes, whatever was planned. */
  lemma OpenNetMeansRenew(tls: Tls, expiry: I64, now: I64, lead: I64)
    requires tls.source.Issued? && tls.notAfter == Some(expiry)
    ensures NeedsRenewal(tls, now, lead) <==> NetIsOpen(expiry, now, lead) || now >= tls.source.acme.renewAfter
    ensures lead <= 0 ==> (NetIsOpen(expiry, now, lead) <==> now >= expiry)
  {
  }

  /** The net leaves the two-thirds plan alone exactly from a lifetime of
      1 814 398 seconds, two seconds short of 21 days; the one exception is a
      certificate issued at the lowest representable time and over within a
      second, whose plan no net can precede. */
  lemma NetSparesPlanExactly(issued: I64, expiry: I64)
    requires issued <= expiry
    ensures var plan := RenewAfter(issued, Some(expiry));
            Due(plan, Some(expiry), RENEWAL_LEAD) == plan
            <==> expiry - issued >= 1_814_398 || (issued == I64_MIN && expiry - issued <= 1)
  {
    var life: int := expiry - issued;
    var plan: int := RenewAfter(issued, Some(expiry));
    if life <= I64_MAX / 2 {
      assert plan == issued + life * 2 / 3;
    } else {
      assert plan <= issued + I64_MAX / 3;
    }
  }

  /** One second less, and the net comes before the plan. */
  lemma NetCutsAShortLife()
    ensures var issued: I64, expiry: I64 := 0, 1_814_397;
            var plan := RenewAfter(issued, Some(expiry));
            plan == 1_209_598 && Due(plan, Some(expiry), RENEWAL_LEAD) == 1_209_597
  {
    NetSparesPlanExactly(0, 1_814_397);
  }

  /** A record made from the expiry it is kept beside is due within that
      certificate's life, and at its two thirds when it lasts 21 days. */
  lemma RecordedScheduleFits(acme: Acme, issued: I64, expiry: I64, tls: Tls)
    requires issued <= expiry
    requires tls.source == Issued(Record(acme, issued, Some(expiry))) && tls.notAfter == Some(expiry)
    ensures DueAt(tls, RENEWAL_LEAD).Some? && DueAt(tls, RENEWAL_LEAD).value <= expiry
    ensures expiry - issued >= 21 * DAY ==> DueAt(tls, RENEWAL_LEAD).value == RenewAfter(issued, Some(expiry)) >= issued
    ensures tls.source.acme.(issuedAt := acme.issuedAt, renewAfter := acme.renewAfter) == acme
  {
    PlanLiesWithinLife(issued, expiry);
    NetSparesPlanExactly(issued, expiry);
  }
}
