/** `ExamManager` of src/exam_manager.py over an in-memory copy of the six tables of
    src/models.py. Timestamps are integers; "now" is a parameter. Lookups return the first
    matching row in table order. The read-only operations are functions of the tables;
    `start_exam` and `submit_exam` change them and are methods of the class `ExamManager`. */
module ExamAccess {
  import opened Query

  datatype Alumno = Alumno(id: int, dni: int, apenom: string)
  datatype Inscripto = Inscripto(id: int, iddni: int, idtectun: int, regular: string, email: string)
  datatype Tecnicatura = Tecnicatura(id: int, tectun: string)
  datatype Turno = Turno(id: int, idtec: int, idexa: int, fDesde: int, fHasta: int, tiempo: int,
                         regular: string)
  datatype Examen = Examen(id: int, exalink: string)
  /** One exam access: `acceso` is the start time, `hora`/`link` the submission. */
  datatype Acceso = Acceso(id: int, idins: int, acceso: int, hora: Option<int>, link: Option<string>)

  datatype Tables = Tables(alumnos: seq<Alumno>, inscriptos: seq<Inscripto>,
                           tecnicaturas: seq<Tecnicatura>, turnos: seq<Turno>,
                           examenes: seq<Examen>, accesos: seq<Acceso>)

  /** The store constraints the schema declares: `dni` is unique and every exam window
      opens before it closes. */
  ghost predicate Consistent(t: Tables) {
    && (forall i, j :: 0 <= i < j < |t.alumnos| ==> t.alumnos[i].dni != t.alumnos[j].dni)
    && (forall k :: 0 <= k < |t.turnos| ==> t.turnos[k].fDesde < t.turnos[k].fHasta)
  }

  // The filters of the queries.
  function DniIs(dni: int): Alumno -> bool { (a: Alumno) => a.dni == dni }
  function StudentIs(alumnoId: int): Inscripto -> bool { (i: Inscripto) => i.iddni == alumnoId }
  function InscriptoIdIs(id: int): Inscripto -> bool { (i: Inscripto) => i.id == id }
  function TecnicaturaIdIs(id: int): Tecnicatura -> bool { (c: Tecnicatura) => c.id == id }
  function WindowFor(ins: Inscripto): Turno -> bool {
    (w: Turno) => w.idtec == ins.idtectun && w.regular == ins.regular
  }
  function EnrollmentIs(idins: int): Acceso -> bool { (a: Acceso) => a.idins == idins }
  function AccesoIdIs(id: int): Acceso -> bool { (a: Acceso) => a.id == id }
  function ExamenIdIs(id: int): Examen -> bool { (e: Examen) => e.id == id }

  /** What `validate_dni` returns when it finds the student and an enrollment. */
  datatype StudentData = StudentData(alumno: Alumno, inscripto: Inscripto,
                                     tecnicatura: Option<Tecnicatura>, turno: Option<Turno>)

  /** `ExamManager.validate_dni`: student by DNI, then the student's first enrollment, then
      its program and its exam window (the first `Turnos` row for the enrollment's program
      and regularity). None when the student or the enrollment is missing. */
  function ValidateDni(t: Tables, dni: int): (r: Option<StudentData>)
    ensures (forall i :: 0 <= i < |t.alumnos| ==> t.alumnos[i].dni != dni) ==> r.None?
    ensures r.Some? ==> r.value.alumno in t.alumnos && r.value.alumno.dni == dni
    ensures r.Some? ==> r.value.inscripto in t.inscriptos && r.value.inscripto.iddni == r.value.alumno.id
    ensures r.Some? ==> match r.value.turno
      case None => forall k :: 0 <= k < |t.turnos| ==> !WindowFor(r.value.inscripto)(t.turnos[k])
      case Some(w) =>
        && w.idtec == r.value.inscripto.idtectun && w.regular == r.value.inscripto.regular
        && exists k :: 0 <= k < |t.turnos| && t.turnos[k] == w
             && forall j :: 0 <= j < k ==> !WindowFor(r.value.inscripto)(t.turnos[j])
    ensures r.Some? ==> match r.value.tecnicatura
      case None => forall k :: 0 <= k < |t.tecnicaturas| ==> t.tecnicaturas[k].id != r.value.inscripto.idtectun
      case Some(c) => c in t.tecnicaturas && c.id == r.value.inscripto.idtectun
  {
    match First(t.alumnos, DniIs(dni))
    case None => None
    case Some(alumno) =>
      match First(t.inscriptos, StudentIs(alumno.id))
      case None => None
      case Some(inscripto) =>
        var tecnicatura := First(t.tecnicaturas, TecnicaturaIdIs(inscripto.idtectun));
        var turno := First(t.turnos, WindowFor(inscripto));
        Some(StudentData(alumno, inscripto, tecnicatura, turno))
  }

  /** With unique DNIs the student found is the one holding the DNI, and the lookup fails
      exactly when that student has no enrollment. */
  lemma ValidateDniFindsStudent(t: Tables, dni: int, k: nat)
    requires Consistent(t)
    requires k < |t.alumnos| && t.alumnos[k].dni == dni
    ensures var r := ValidateDni(t, dni);
      && (r.None? <==> forall j :: 0 <= j < |t.inscriptos| ==> t.inscriptos[j].iddni != t.alumnos[k].id)
      && (r.Some? ==> r.value.alumno == t.alumnos[k])
  {
    FirstOfUnique(t.alumnos, DniIs(dni), k);
  }

  /** The lookups never read the access table. */
  lemma ValidateDniIgnoresAccesses(t: Tables, accesos: seq<Acceso>, dni: int)
    ensures ValidateDni(t.(accesos := accesos), dni) == ValidateDni(t, dni)
  {
  }

  const NotEnrolledMessage := "No existe DNI inscripto para RENDIR EXAMENES FINALES EN CASA"
  const OutOfRangeMessage := "Fuera del rango de fechas para tomar el examen"
  const AlreadyUsedMessage := "Ya ha ocupado su cupón de EXAMEN"

  /** The verdict of `check_exam_eligibility`. `NoExamWindow` is the exception the source
      raises when no `Turnos` row matches (it reads `f_desde` of None). */
  datatype Eligibility =
    | Eligible(studentData: StudentData, examTimeLimit: int)
    | Ineligible(message: string)
    | NoExamWindow

  lemma MessagesDistinct()
    ensures NotEnrolledMessage != OutOfRangeMessage && NotEnrolledMessage != AlreadyUsedMessage
    ensures OutOfRangeMessage != AlreadyUsedMessage
  {
    assert |NotEnrolledMessage| != |OutOfRangeMessage|;
    assert |NotEnrolledMessage| != |AlreadyUsedMessage|;
    assert |OutOfRangeMessage| != |AlreadyUsedMessage|;
  }

  predicate InWindow(w: Turno, now: int) { w.fDesde <= now <= w.fHasta }

  /** `ExamManager.check_exam_eligibility`. */
  function CheckExamEligibility(t: Tables, dni: int, now: int): (r: Eligibility)
    ensures r == Ineligible(NotEnrolledMessage) <==> ValidateDni(t, dni).None?
    ensures r.NoExamWindow? <==> ValidateDni(t, dni).Some? && ValidateDni(t, dni).value.turno.None?
    ensures r == Ineligible(OutOfRangeMessage) <==>
      ValidateDni(t, dni).Some? && ValidateDni(t, dni).value.turno.Some?
      && !InWindow(ValidateDni(t, dni).value.turno.value, now)
    ensures r.Eligible? <==>
      ValidateDni(t, dni).Some? && ValidateDni(t, dni).value.turno.Some?
      && InWindow(ValidateDni(t, dni).value.turno.value, now)
      && forall k :: 0 <= k < |t.accesos| ==> t.accesos[k].idins != ValidateDni(t, dni).value.inscripto.id
    ensures r == Ineligible(AlreadyUsedMessage) <==>
      ValidateDni(t, dni).Some? && ValidateDni(t, dni).value.turno.Some?
      && InWindow(ValidateDni(t, dni).value.turno.value, now)
      && exists k :: 0 <= k < |t.accesos| && t.accesos[k].idins == ValidateDni(t, dni).value.inscripto.id
    ensures r.Eligible? ==>
      r.studentData == ValidateDni(t, dni).value && r.examTimeLimit == r.studentData.turno.value.tiempo
  {
    MessagesDistinct();
    match ValidateDni(t, dni)
    case None => Ineligible(NotEnrolledMessage)
    case Some(data) =>
      match data.turno
      case None => NoExamWindow
      case Some(turno) =>
        if InWindow(turno, now) then
          if First(t.accesos, EnrollmentIs(data.inscripto.id)).Some? then
            Ineligible(AlreadyUsedMessage)
          else
            Eligible(data, turno.tiempo)
        else
          Ineligible(OutOfRangeMessage)
  }

  /** Once an access row exists for the enrollment, the student is never eligible again,
      whatever its submission fields hold. */
  lemma AccessRowBlocksEligibility(t: Tables, dni: int, now: int, k: nat)
    requires ValidateDni(t, dni).Some?
    requires k < |t.accesos| && t.accesos[k].idins == ValidateDni(t, dni).value.inscripto.id
    ensures !CheckExamEligibility(t, dni, now).Eligible?
  {
  }

  /** Eligibility after `start_exam` (an appended row) is lost for good: starting the exam
      consumes the enrollment's single-use coupon. */
  lemma StartConsumesEligibility(t: Tables, dni: int, now: int, a: Acceso, later: int)
    requires CheckExamEligibility(t, dni, now).Eligible?
    requires a.idins == CheckExamEligibility(t, dni, now).studentData.inscripto.id
    ensures var t' := t.(accesos := t.accesos + [a]);
      var r := CheckExamEligibility(t', dni, later);
      r == Ineligible(AlreadyUsedMessage) || r == Ineligible(OutOfRangeMessage)
  {
    var t' := t.(accesos := t.accesos + [a]);
    ValidateDniIgnoresAccesses(t, t'.accesos, dni);
    assert t'.accesos[|t.accesos|] == a;
    AccessRowBlocksEligibility(t', dni, later, |t.accesos|);
  }

  /** `ExamManager.get_exam_instructions`: the `exalink` of the first exam with that id. */
  function GetExamInstructions(t: Tables, examId: int): (r: Option<string>)
    ensures r.None? <==> forall k :: 0 <= k < |t.examenes| ==> t.examenes[k].id != examId
    ensures r.Some? ==>
      exists k :: 0 <= k < |t.examenes| && t.examenes[k].id == examId && t.examenes[k].exalink == r.value
        && forall j :: 0 <= j < k ==> t.examenes[j].id != examId
  {
    match First(t.examenes, ExamenIdIs(examId))
    case None => None
    case Some(e) => Some(e.exalink)
  }

  // ---------------------------------------------------------------------------------------
  // start_exam as written: the `Acceso` constructor is called with `timestamp=`.

  /** The mapped columns of `Acceso`; the declarative constructor rejects any other keyword. */
  const AccesoColumns: set<string> := {"id", "idins", "acceso", "hora", "link"}

  predicate ConstructorAccepts(keywords: set<string>) { keywords <= AccesoColumns }

  /** The keywords `start_exam` passes raise TypeError, so no access row is ever created as
      written; the keywords of the corrected call are accepted. */
  lemma StartExamAsWrittenRaises()
    ensures !ConstructorAccepts({"idins", "timestamp"})
    ensures ConstructorAccepts({"idins", "acceso"})
  {
    assert "timestamp" !in AccesoColumns by {
      assert |"timestamp"| == 9;
    }
  }

  // ---------------------------------------------------------------------------------------
  // The operations that change the tables.

  /** What `start_exam` as written can do: add the row, or raise in the constructor. */
  datatype StartOutcome = Started(access: Acceso) | ConstructorRaised

  /** The confirmation handed to the email sink (`send_exam_submission_email`), which
      swallows every delivery failure. */
  datatype Mail = Mail(to: string, submittedAt: int, link: string)

  /** What `submit_exam` does: `Submitted` returns True, `UnknownAccess` returns False,
      `EnrollmentMissing` is the exception raised after the commit when the access row's
      enrollment no longer exists (it reads `email` of None). */
  datatype SubmitResult = Submitted(mail: Mail) | UnknownAccess | EnrollmentMissing

  class ExamManager {
    var db: Tables
    /** The next value of the `acceso.id` sequence. */
    var nextAccesoId: int

    ghost predicate Valid()
      reads this
    {
      && (forall k :: 0 <= k < |db.accesos| ==> db.accesos[k].id < nextAccesoId)
      && (forall i, j :: 0 <= i < j < |db.accesos| ==> db.accesos[i].id != db.accesos[j].id)
    }

    constructor (tables: Tables, nextId: int)
      requires forall k :: 0 <= k < |tables.accesos| ==> tables.accesos[k].id < nextId
      requires forall i, j :: 0 <= i < j < |tables.accesos| ==> tables.accesos[i].id != tables.accesos[j].id
      ensures Valid() && db == tables && nextAccesoId == nextId
    {
      db := tables;
      nextAccesoId := nextId;
    }

    /** `ExamManager.start_exam`, with the start time stored in the `acceso` column. It
        appends one row and checks nothing: an enrollment that already has a row gets
        another one. */
    method StartExam(studentData: StudentData, now: int) returns (access: Acceso)
      requires Valid()
      modifies this
      ensures Valid()
      ensures access == Acceso(old(nextAccesoId), studentData.inscripto.id, now, None, None)
      ensures forall k :: 0 <= k < |old(db.accesos)| ==> old(db.accesos)[k].id != access.id
      ensures db == old(db).(accesos := old(db.accesos) + [access])
      ensures nextAccesoId == old(nextAccesoId) + 1
    {
      access := Acceso(nextAccesoId, studentData.inscripto.id, now, None, None);
      db := db.(accesos := db.accesos + [access]);
      nextAccesoId := nextAccesoId + 1;
    }

    /** `ExamManager.start_exam` as written: the `Acceso` constructor receives the keywords
        `idins` and `timestamp`, raises TypeError before anything is added, and the route in
        main.py answers 500. The method changes nothing: no row is created and the id sequence
        does not move. */
    method StartExamAsWritten(studentData: StudentData, now: int) returns (r: StartOutcome)
      ensures r == ConstructorRaised
    {
      StartExamAsWrittenRaises();
      if ConstructorAccepts({"idins", "timestamp"}) {
        // session.add and session.commit are never reached
        assert false;
      }
      r := ConstructorRaised;
    }

    /** `ExamManager.submit_exam`: stamps the access row with the submission time and link
        (again on every call: nothing stops a second submission or a late one), then mails
        the enrollment's address. An unknown id changes nothing. */
    method SubmitExam(accessId: int, githubLink: string, now: int) returns (r: SubmitResult)
      requires Valid()
      modifies this
      ensures Valid() && nextAccesoId == old(nextAccesoId)
      ensures (forall k :: 0 <= k < |old(db.accesos)| ==> old(db.accesos)[k].id != accessId) ==>
        r == UnknownAccess && db == old(db)
      ensures forall k :: 0 <= k < |old(db.accesos)| && old(db.accesos)[k].id == accessId ==>
        && db == old(db).(accesos := old(db.accesos)[k := old(db.accesos)[k].(hora := Some(now), link := Some(githubLink))])
        && !r.UnknownAccess?
        && (r.Submitted? <==> exists j :: 0 <= j < |db.inscriptos| && db.inscriptos[j].id == old(db.accesos)[k].idins)
        && (r.Submitted? ==>
              && r.mail.submittedAt == now && r.mail.link == githubLink
              && exists j :: 0 <= j < |db.inscriptos| && db.inscriptos[j].id == old(db.accesos)[k].idins
                   && db.inscriptos[j].email == r.mail.to)
    {
      match FirstIndex(db.accesos, AccesoIdIs(accessId))
      case None =>
        r := UnknownAccess;
      case Some(k) =>
        assert forall j :: 0 <= j < |db.accesos| && db.accesos[j].id == accessId ==> j == k;
        var record := db.accesos[k].(hora := Some(now), link := Some(githubLink));
        db := db.(accesos := db.accesos[k := record]);
        match First(db.inscriptos, InscriptoIdIs(record.idins))
        case None =>
          r := EnrollmentMissing;
        case Some(inscripto) =>
          r := Submitted(Mail(inscripto.email, now, githubLink));
    }
  }
}
