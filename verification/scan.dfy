/** The student portal's handling of a decoded QR code: look the session
    up, refuse it once expired, and record one attendance row. */
module Scan {
  import opened Wrappers
  import opened Store
  import Issuer

  /** The five ways a scan ends, one per toast. */
  datatype ScanResult = InvalidCode | Expired | AlreadyMarked | MarkFailed | Marked

  /** The toast each outcome shows. */
  function Message(r: ScanResult): (n: Notice)
    ensures n.Success? <==> r == Marked
  {
    match r
    case InvalidCode => Failure("Invalid or expired QR code")
    case Expired => Failure("QR code has expired")
    case AlreadyMarked => Failure("Attendance already marked for this session")
    case MarkFailed => Failure("Failed to mark attendance")
    case Marked => Success("Attendance marked successfully!")
  }

  /** The outcome of a scan and the attendance table after it. */
  datatype Outcome = Outcome(result: ScanResult, attendance: set<AttendanceRow>)

  /** The row the scanner inserts for `studentId` and session `s`. */
  function RowOf(studentId: string, s: QrSession): AttendanceRow {
    AttendanceRow(studentId, s.id, s.classId)
  }

  /** Whether the lookup finds exactly one session for the token. */
  predicate Found(sessions: seq<QrSession>, token: string, lookupFault: bool) {
    !lookupFault && SelectSingle(sessions, token).Ok?
  }

  /** `onScanSuccess` with decoded text `token`, run by `studentId` at
      instant `now`. `lookupFault` is a failure of the session request
      itself; `insertFault` one of the insert request. */
  function OnScan(token: string, studentId: string, sessions: seq<QrSession>, att: set<AttendanceRow>,
                  now: int, lookupFault: bool, insertFault: Option<DbError>): (o: Outcome)
    ensures o.result == InvalidCode <==> !Found(sessions, token, lookupFault)
    ensures o.result == Expired <==>
      Found(sessions, token, lookupFault) && now > SelectSingle(sessions, token).value.expiresAt
    ensures o.result == Marked <==>
      && Found(sessions, token, lookupFault)
      && now <= SelectSingle(sessions, token).value.expiresAt
      && insertFault.None?
      && !HasRowFor(att, studentId, SelectSingle(sessions, token).value.id)
    ensures o.result == Marked ==>
      o.attendance == att + {RowOf(studentId, SelectSingle(sessions, token).value)}
    ensures o.result != Marked ==> o.attendance == att
    ensures o.result == AlreadyMarked && insertFault.None? ==>
      HasRowFor(att, studentId, SelectSingle(sessions, token).value.id)
    ensures o.result == MarkFailed ==> insertFault.Some?
    ensures Found(sessions, token, lookupFault) && now <= SelectSingle(sessions, token).value.expiresAt
            && insertFault.Some? ==>
      o.result == (if insertFault.value.code == UniqueViolation then AlreadyMarked else MarkFailed)
    ensures UniquePerSession(att) ==> UniquePerSession(o.attendance)
  {
    if lookupFault then Outcome(InvalidCode, att)
    else match SelectSingle(sessions, token)
      case Err(_) => Outcome(InvalidCode, att)
      case Ok(s) =>
        if now > s.expiresAt then Outcome(Expired, att)
        else match InsertAttendance(att, RowOf(studentId, s), insertFault)
          case Ok(att') => Outcome(Marked, att')
          case Err(e) => Outcome(if e.code == UniqueViolation then AlreadyMarked else MarkFailed, att)
  }

  /** Under the unique constraint a student who has a row for a session
      has exactly one. */
  lemma SingleRow(att: set<AttendanceRow>, studentId: string, sessionId: string)
    requires UniquePerSession(att) && HasRowFor(att, studentId, sessionId)
    ensures |RowsFor(att, studentId, sessionId)| == 1
  {
    var a :| a in att && a.studentId == studentId && a.qrSessionId == sessionId;
    assert RowsFor(att, studentId, sessionId) == {a};
  }

  /** Scanning the same valid code twice: the second scan reports the
      existing mark, and the student holds exactly one row for the
      session. */
  lemma ScanTwice(token: string, studentId: string, sessions: seq<QrSession>, att: set<AttendanceRow>,
                  now1: int, now2: int)
    requires UniquePerSession(att)
    requires SelectSingle(sessions, token).Ok?
    requires now1 <= now2 <= SelectSingle(sessions, token).value.expiresAt
    ensures var o1 := OnScan(token, studentId, sessions, att, now1, false, None);
      var o2 := OnScan(token, studentId, sessions, o1.attendance, now2, false, None);
      && (o1.result == Marked || o1.result == AlreadyMarked)
      && o2.result == AlreadyMarked
      && o2.attendance == o1.attendance
      && |RowsFor(o2.attendance, studentId, SelectSingle(sessions, token).value.id)| == 1
  {
    var s := SelectSingle(sessions, token).value;
    var o1 := OnScan(token, studentId, sessions, att, now1, false, None);
    if o1.result == Marked {
      assert RowOf(studentId, s) in o1.attendance;
    }
    assert HasRowFor(o1.attendance, studentId, s.id);
    SingleRow(o1.attendance, studentId, s.id);
  }

  /** The session row the backend stores for an issuer's request, under
      the id it assigns. */
  function Persisted(n: Issuer.NewSession, id: string): QrSession {
    QrSession(id, n.classId, n.teacherId, n.qrData, n.expiresAt)
  }

  /** A code issued at `issuedAt` and stored next to sessions with other
      codes marks a student who scans it at `now` exactly when `now` is at
      most one minute after issue; the row names the issuing class. */
  lemma IssueThenScan(p: Issuer.Portal, teacherId: string, issuedAt: nat, id: string,
                      older: seq<QrSession>, att: set<AttendanceRow>, studentId: string, now: int)
    requires p.selectedClass != ""
    requires forall s :: s in older ==> s.qrData != Issuer.Token(p.selectedClass, issuedAt)
    requires !HasRowFor(att, studentId, id)
    ensures var g := Issuer.GenerateQR(p, teacherId, issuedAt, true);
      var o := OnScan(g.portal.qrData, studentId, older + [Persisted(g.stored.value, id)], att, now, false, None);
      && (o.result == Marked <==> now <= issuedAt + Issuer.ValidityMs)
      && (o.result == Expired <==> now > issuedAt + Issuer.ValidityMs)
      && (o.result == Marked ==> o.attendance == att + {AttendanceRow(studentId, id, p.selectedClass)})
  {
    var g := Issuer.GenerateQR(p, teacherId, issuedAt, true);
    var token := g.portal.qrData;
    var issued := Persisted(g.stored.value, id);
    var sessions := older + [issued];
    assert SessionsWithToken(sessions, token) == [issued] by {
      OnlyMatch(older, issued, token);
    }
  }

  /** Appending the one session holding a token to sessions that do not
      leaves it the only match. */
  lemma {:induction false} OnlyMatch(older: seq<QrSession>, s: QrSession, token: string)
    requires s.qrData == token
    requires forall t :: t in older ==> t.qrData != token
    ensures SessionsWithToken(older + [s], token) == [s]
  {
    if |older| == 0 {
      assert older + [s] == [s];
      assert [s][1..] == [];
    } else {
      assert (older + [s])[1..] == older[1..] + [s];
      OnlyMatch(older[1..], s, token);
    }
  }

  /** A scan at exactly the expiry instant is still accepted: only a later
      instant is refused. */
  lemma ExpiryInstantAccepted(token: string, studentId: string, sessions: seq<QrSession>, att: set<AttendanceRow>)
    requires SelectSingle(sessions, token).Ok?
    requires !HasRowFor(att, studentId, SelectSingle(sessions, token).value.id)
    ensures OnScan(token, studentId, sessions, att, SelectSingle(sessions, token).value.expiresAt, false, None).result == Marked
  {
  }
}
