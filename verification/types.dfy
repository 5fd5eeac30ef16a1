/** The documents of the attendance backend and the errors its endpoints raise.

    The three MongoDB collections (users, courses, attendance) are modelled as
    sequences; a course's or an attendance record's ObjectId is its position
    in its collection, since no endpoint deletes a course or a record. */
module Types {

  datatype Option<+T> = None | Some(value: T)

  /** An endpoint either succeeds with a value or raises an HTTPException. */
  datatype Result<+T> = Success(value: T) | Failure(error: Error)

  /** An HTTPException: its status code and its `detail` text. */
  datatype Error = Error(status: nat, detail: string)

  /** A role string that is neither "teacher" nor "student". */
  type OtherRoleName = s: string | s != "teacher" && s != "student" witness ""

  /** The `role` field of a user document; any string other than
      "teacher" and "student" is kept as `OtherRole`. */
  datatype Role = Teacher | Student | OtherRole(name: OtherRoleName)

  /** A user document; the password hash is not modelled. */
  datatype User = User(email: string, fullName: string, role: Role)

  /** A course document: the fields of the request body plus the owner and
      the enrolled students. */
  datatype Course = Course(
    name: string,
    code: string,
    schedule: string,
    teacherEmail: string,
    studentEmails: seq<string>)

  /** An attendance document: one session of one course. `date` is the
      session's start time, abstracted to a totally ordered number. */
  datatype Record = Record(
    courseId: nat,
    date: nat,
    code: string,
    isActive: bool,
    students: seq<string>)

  /** The whole database. */
  datatype Db = Db(users: seq<User>, courses: seq<Course>, attendance: seq<Record>)

  /** What a state-changing endpoint answers, and the database afterwards. */
  datatype Reply<+T> = Reply(result: Result<T>, db: Db)

  // The HTTPExceptions raised by the modelled endpoints, with their texts.
  const EmailAlreadyRegistered := Error(400, "Email already registered")
  const OnlyTeachersCreateCourses := Error(403, "Only teachers can create courses")
  const OnlyTeachersAddStudents := Error(403, "Only teachers can add students")
  const CourseNotFound := Error(404, "Course not found")
  const StudentNotFound := Error(404, "Student not found")
  const CourseIdRequired := Error(400, "course_id is required")
  const OnlyTeachersStart := Error(403, "Only teachers can start attendance")
  const AlreadyActive := Error(400, "There is already an active attendance for this course")
  const CourseIdAndCodeRequired := Error(400, "course_id and code are required")
  const OnlyStudentsSubmit := Error(403, "Only students can submit attendance")
  const NotEnrolled := Error(404, "Course not found or you are not enrolled")
  const InvalidOrExpiredCode := Error(400, "Invalid or expired attendance code")
  const AlreadySubmitted := Error(400, "You have already submitted attendance")
  const OnlyTeachersEnd := Error(403, "Only teachers can end attendance")
  const NoActiveAttendance := Error(400, "No active attendance found")
  const NoHistoryAccess := Error(404, "Course not found or you don't have access")
  const OnlyTeachersCreateUsers := Error(403, "Sadece öğretmenler yeni kullanıcı ekleyebilir")
  const BadTeacherEmail := Error(400, "Öğretmen e-postası '@ogretmen.edu.tr' ile bitmelidir")
  const BadStudentEmail := Error(400, "Öğrenci e-postası '@ogrenci.edu.tr' ile bitmelidir")
  const EmailInUse := Error(400, "Bu e-posta adresi zaten kullanımda")
  const OnlyTeachersAddCourses := Error(403, "Sadece öğretmenler ders ekleyebilir")
  const CourseCodeInUse := Error(400, "Bu ders kodu zaten kullanımda")
}
