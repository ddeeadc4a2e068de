/** The teacher portal's QR issuer: building the session token, storing
    the session, and the one-second countdown that hides the code when its
    minute is over. */
module Issuer {
  import opened Wrappers
  import opened Text

  /** How long a session accepts scans after it is issued, in ms. */
  const ValidityMs: int := 60000

  /** Length of the on-screen countdown, in ticks of one second. */
  const CountdownTicks: int := 60

  /** The portal state the issuer touches: the chosen class id (empty when
      none is chosen), the code on screen (empty when none) and the seconds
      left on the countdown. */
  datatype Portal = Portal(selectedClass: string, qrData: string, timeLeft: int)

  const InitialPortal := Portal("", "", 0)

  /** The insert request for a new `qr_sessions` row. */
  datatype NewSession = NewSession(classId: string, teacherId: string, qrData: string, expiresAt: int)

  /** What a press of "Generate" leads to: the new portal state, the
      session row stored (if any) and the toast shown. */
  datatype Generated = Generated(portal: Portal, stored: Option<NewSession>, notice: Notice)

  // ---------------------------------------------------------------------
  // Tokens
  // ---------------------------------------------------------------------

  /** The QR payload: the class id, an underscore and the issue time. The
      underscore is the last one in the payload, so the class id may hold
      underscores of its own. */
  function Token(classId: string, timestamp: nat): (t: string)
    ensures |t| > |classId| + 1
    ensures t[..|classId|] == classId && t[|classId|] == '_'
    ensures LastIndexOf(t, '_') == |classId|
    ensures ParseDecimal(t[|classId| + 1..]) == Some(timestamp)
    ensures forall i :: |classId| < i < |t| ==> IsDigit(t[i])
    ensures |t| > |classId| + 2 ==> t[|classId| + 1] != '0'
  {
    var d := Decimal(timestamp);
    assert '_' !in d by {
      forall i | 0 <= i < |d| ensures d[i] != '_' { assert IsDigit(d[i]); }
    }
    LastIndexOfSeparator(classId, '_', d);
    ParseDecimalOfDecimal(timestamp);
    var t := classId + "_" + d;
    assert t[|classId| + 1..] == d;
    t
  }

  /** Splits a payload at its last underscore into class id and issue
      time: the inverse of `Token`. */
  function ParseToken(token: string): Option<(string, nat)> {
    var k := LastIndexOf(token, '_');
    if k < 0 then None
    else match ParseDecimal(token[k + 1..])
      case None => None
      case Some(t) => Some((token[..k], t))
  }

  /** A token names its class and issue time, whatever characters the class
      id holds. */
  lemma TokenRoundTrip(classId: string, timestamp: nat)
    ensures ParseToken(Token(classId, timestamp)) == Some((classId, timestamp))
  {
  }

  /** Two tokens are equal exactly when class and issue time are: in
      particular one class never gets the same token at two instants. */
  lemma TokenInjective(c1: string, t1: nat, c2: string, t2: nat)
    ensures Token(c1, t1) == Token(c2, t2) <==> c1 == c2 && t1 == t2
  {
    TokenRoundTrip(c1, t1);
    TokenRoundTrip(c2, t2);
  }

  // ---------------------------------------------------------------------
  // Issuing a session
  // ---------------------------------------------------------------------

  /** `generateQR` at instant `now`; `insertOk` is whether the backend
      accepted the new session row. */
  function GenerateQR(p: Portal, teacherId: string, now: nat, insertOk: bool): (g: Generated)
    ensures p.selectedClass == "" ==> g == Generated(p, None, Failure("Please select a class"))
    ensures p.selectedClass != "" && !insertOk ==> g == Generated(p, None, Failure("Failed to generate QR code"))
    ensures p.selectedClass != "" && insertOk ==>
      && g.stored == Some(NewSession(p.selectedClass, teacherId, g.portal.qrData, now + ValidityMs))
      && g.portal == p.(qrData := Token(p.selectedClass, now), timeLeft := CountdownTicks)
      && ParseToken(g.portal.qrData) == Some((p.selectedClass, now))
      && g.notice.Success?
  {
    if p.selectedClass == "" then Generated(p, None, Failure("Please select a class"))
    else
      var token := Token(p.selectedClass, now);
      TokenRoundTrip(p.selectedClass, now);
      if !insertOk then Generated(p, None, Failure("Failed to generate QR code"))
      else Generated(p.(qrData := token, timeLeft := CountdownTicks),
                     Some(NewSession(p.selectedClass, teacherId, token, now + ValidityMs)),
                     Success("QR code generated!"))
  }

  // ---------------------------------------------------------------------
  // Countdown
  // ---------------------------------------------------------------------

  /** A portal state and the toast that came with reaching it. */
  datatype Step = Step(portal: Portal, notice: Option<Notice>)

  /** The effect on `[timeLeft, qrData]`: when the countdown stands at zero
      with a code shown, the code is cleared. */
  function Settle(p: Portal): (s: Step)
    ensures s.portal.selectedClass == p.selectedClass && s.portal.timeLeft == p.timeLeft
    ensures s.portal.timeLeft == 0 ==> s.portal.qrData == ""
    ensures p.timeLeft != 0 ==> s.portal.qrData == p.qrData
    ensures s.notice.Some? <==> s.portal.qrData != p.qrData
    ensures s.notice.Some? ==> s.notice.value == Info("QR code expired")
  {
    if p.timeLeft == 0 && p.qrData != "" then Step(p.(qrData := ""), Some(Info("QR code expired")))
    else Step(p, None)
  }

  /** Settling twice is settling once: the cleared state raises no second
      toast. */
  lemma SettleIdempotent(p: Portal)
    ensures Settle(Settle(p).portal) == Step(Settle(p).portal, None)
  {
  }

  /** One second of the countdown. The interval exists only while
      `timeLeft > 0`, so at zero nothing happens. */
  function Tick(p: Portal): (s: Step)
    ensures p.timeLeft > 0 ==> s.portal.timeLeft == p.timeLeft - 1 && s.portal.selectedClass == p.selectedClass
    ensures p.timeLeft > 1 ==> s == Step(p.(timeLeft := p.timeLeft - 1), None)
    ensures p.timeLeft == 1 ==> s.portal.qrData == ""
    ensures p.timeLeft == 1 && p.qrData != "" ==> s.notice == Some(Info("QR code expired"))
    ensures p.timeLeft <= 0 ==> s == Step(p, None)
  {
    if p.timeLeft > 0 then Settle(p.(timeLeft := p.timeLeft - 1)) else Step(p, None)
  }

  /** The state after `n` seconds. */
  function Ticks(p: Portal, n: nat): Portal
    decreases n
  {
    if n == 0 then p else Ticks(Tick(p).portal, n - 1)
  }

  /** The states the portal can be in: the countdown stays within 0..60
      and a code is shown only while it runs. */
  predicate Consistent(p: Portal) {
    0 <= p.timeLeft <= CountdownTicks && (p.timeLeft == 0 ==> p.qrData == "")
  }

  /** The events of the portal. */
  datatype Event = SelectClass(classId: string) | Generate(teacherId: string, now: nat, insertOk: bool) | Second

  /** One event. Choosing a class leaves the code on screen alone; a new
      code replaces the old one and restarts the countdown. */
  function Next(p: Portal, e: Event): (s: Step)
    ensures Consistent(p) ==> Consistent(s.portal)
    ensures e.SelectClass? ==>
      s.portal.selectedClass == e.classId && s.portal.qrData == p.qrData && s.portal.timeLeft == p.timeLeft
    ensures e.Generate? ==> s.notice.Some? && s.portal.selectedClass == p.selectedClass
    ensures e.Generate? && p.selectedClass != "" && e.insertOk ==>
      && s.portal.timeLeft == CountdownTicks
      && s.portal.qrData == Token(p.selectedClass, e.now)
      && ParseToken(s.portal.qrData) == Some((p.selectedClass, e.now))
    ensures e.Generate? && !(p.selectedClass != "" && e.insertOk) ==> s.portal == p
    ensures e.Second? ==> s.portal.selectedClass == p.selectedClass
    ensures e.Second? && p.timeLeft > 0 ==> s.portal.timeLeft == p.timeLeft - 1
  {
    match e
    case SelectClass(c) => Step(p.(selectedClass := c), None)
    case Generate(t, now, ok) =>
      var g := GenerateQR(p, t, now, ok);
      Step(g.portal, Some(g.notice))
    case Second => Tick(p)
  }

  /** Every event keeps the portal consistent; the countdown never goes
      negative. */
  lemma NextConsistent(p: Portal, e: Event)
    requires Consistent(p)
    ensures Consistent(Next(p, e).portal)
  {
  }

  lemma InitialConsistent()
    ensures Consistent(InitialPortal)
  {
  }

  /** After a code is issued, it stays on screen for 59 seconds with the
      countdown at 60 - n, and is gone (with the countdown at zero) after
      60. */
  lemma {:induction false} CountdownClears(p: Portal, n: nat)
    decreases n
    requires 0 < p.timeLeft <= CountdownTicks && p.qrData != ""
    ensures n < p.timeLeft ==> Ticks(p, n) == p.(timeLeft := p.timeLeft - n)
    ensures n >= p.timeLeft ==> Ticks(p, n) == p.(qrData := "", timeLeft := 0)
  {
    if n > 0 {
      var q := Tick(p).portal;
      if p.timeLeft > 1 {
        CountdownClears(q, n - 1);
      } else {
        StoppedStays(q, n - 1);
      }
    }
  }

  /** A stopped countdown stays stopped. */
  lemma {:induction false} StoppedStays(p: Portal, n: nat)
    requires p.timeLeft == 0 && p.qrData == ""
    ensures Ticks(p, n) == p
  {
    if n > 0 {
      StoppedStays(Tick(p).portal, n - 1);
    }
  }

  /** A successfully issued code is hidden exactly 60 seconds later. */
  lemma IssuedCodeExpires(p: Portal, teacherId: string, now: nat, n: nat)
    requires p.selectedClass != ""
    ensures var q := GenerateQR(p, teacherId, now, true).portal;
      && (n < CountdownTicks ==> Ticks(q, n).qrData == Token(p.selectedClass, now))
      && (n >= CountdownTicks ==> Ticks(q, n).qrData == "" && Ticks(q, n).timeLeft == 0)
  {
    var q := GenerateQR(p, teacherId, now, true).portal;
    CountdownClears(q, n);
  }
}
