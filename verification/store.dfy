/** The two backend tables the QR flow reads and writes, with the
    behaviour of the requests the pages make on them. */
module Store {
  import opened Wrappers

  /** A row of `qr_sessions`; `id` is assigned by the backend. */
  datatype QrSession = QrSession(id: string, classId: string, teacherId: string, qrData: string, expiresAt: int)

  /** A row of `attendance` as the scanner inserts it. */
  datatype AttendanceRow = AttendanceRow(studentId: string, qrSessionId: string, classId: string)

  /** The error a request returns, identified by its code. */
  datatype DbError = DbError(code: string)

  /** PostgreSQL's unique-violation code. */
  const UniqueViolation := "23505"

  /** The code `.single()` returns when zero or several rows match. */
  const NotSingle := "PGRST116"

  /** The sessions whose `qr_data` is `token`, in table order. */
  function SessionsWithToken(sessions: seq<QrSession>, token: string): (r: seq<QrSession>)
    ensures forall i :: 0 <= i < |r| ==> r[i] in sessions && r[i].qrData == token
    ensures forall s :: s in sessions && s.qrData == token ==> s in r
  {
    if |sessions| == 0 then []
    else
      var rest := SessionsWithToken(sessions[1..], token);
      assert forall s :: s in sessions ==> s == sessions[0] || s in sessions[1..];
      (if sessions[0].qrData == token then [sessions[0]] else []) + rest
  }

  /** `.select("*").eq("qr_data", token).single()`: the one matching row,
      or an error when there is none or more than one. */
  function SelectSingle(sessions: seq<QrSession>, token: string): (r: Result<QrSession, DbError>)
    ensures r.Ok? <==> |SessionsWithToken(sessions, token)| == 1
    ensures r.Ok? ==> r.value in sessions && r.value.qrData == token
    ensures r.Ok? ==> forall s :: s in sessions && s.qrData == token ==> s == r.value
  {
    var m := SessionsWithToken(sessions, token);
    if |m| == 1 then Ok(m[0]) else Err(DbError(NotSingle))
  }

  /** At most one attendance row per (student, session): the table's
      unique constraint. */
  predicate UniquePerSession(att: set<AttendanceRow>) {
    forall a, b :: a in att && b in att && a.studentId == b.studentId && a.qrSessionId == b.qrSessionId ==> a == b
  }

  /** Whether the table already holds a row for this student and session. */
  predicate HasRowFor(att: set<AttendanceRow>, studentId: string, sessionId: string) {
    exists a :: a in att && a.studentId == studentId && a.qrSessionId == sessionId
  }

  /** The rows of one student for one session. */
  function RowsFor(att: set<AttendanceRow>, studentId: string, sessionId: string): set<AttendanceRow> {
    set a | a in att && a.studentId == studentId && a.qrSessionId == sessionId
  }

  /** `.from("attendance").insert(row)`: a request that fails for a reason
      of its own (`fault`) changes nothing; otherwise the unique constraint
      rejects a second row for the same student and session with
      `UniqueViolation`, and any other row is added. */
  function InsertAttendance(att: set<AttendanceRow>, row: AttendanceRow, fault: Option<DbError>)
    : (r: Result<set<AttendanceRow>, DbError>)
    ensures r.Ok? <==> fault.None? && !HasRowFor(att, row.studentId, row.qrSessionId)
    ensures r.Ok? ==> r.value == att + {row} && row !in att
    ensures r.Err? && fault.None? ==> r.error.code == UniqueViolation
    ensures fault.Some? ==> r == Err(fault.value)
    ensures UniquePerSession(att) && r.Ok? ==> UniquePerSession(r.value)
  {
    if fault.Some? then Err(fault.value)
    else if HasRowFor(att, row.studentId, row.qrSessionId) then Err(DbError(UniqueViolation))
    else Ok(att + {row})
  }
}
