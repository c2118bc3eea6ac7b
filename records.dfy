/** The user record and its embedded health data, as the program keeps them in memory. */
module Records {

  /** A C++ `int`: 32 bits, two's complement. */
  newtype int32 = x: int | -0x8000_0000 <= x < 0x8000_0000

  /**
   * The vitals of one member and their food log. Blood sugar and temperature are `float`
   * in the program; here they are integers (a reading in some fixed unit), so that a
   * value printed and read back is the same value.
   */
  datatype HealthData = HealthData(
    systolicBP: int32,
    diastolicBP: int32,
    pulseRate: int32,
    respiratoryRate: int32,
    bloodSugar: int,
    temperature: int,
    foodLog: seq<string>)

  datatype Member = Member(
    username: string,
    password: string,
    name: string,
    medicalCondition: string,
    health: HealthData)

  /** The health data a new registration starts with: every vital zero, nothing logged. */
  const ZeroHealth := HealthData(0, 0, 0, 0, 0, 0, [])

  /** The record registration appends for the given answers. */
  function NewMember(username: string, password: string, name: string, medicalCondition: string): (m: Member)
    ensures HasCredentials(m, username, password) && m.name == name && m.medicalCondition == medicalCondition
    ensures m.health.systolicBP == m.health.diastolicBP == m.health.pulseRate == m.health.respiratoryRate == 0
    ensures m.health.bloodSugar == m.health.temperature == 0 && m.health.foodLog == []
  {
    Member(username, password, name, medicalCondition, ZeroHealth)
  }

  /** The credential test of the login loop: both the username and the password are equal. */
  predicate HasCredentials(m: Member, username: string, password: string)
  {
    m.username == username && m.password == password
  }

  /** No free-text field of `m` holds a '\n', the one character the file format cannot carry. */
  predicate MemberLineSafe(m: Member)
  {
    && '\n' !in m.username
    && '\n' !in m.password
    && '\n' !in m.name
    && '\n' !in m.medicalCondition
    && forall i :: 0 <= i < |m.health.foodLog| ==> '\n' !in m.health.foodLog[i]
  }

  predicate LineSafe(users: seq<Member>)
  {
    forall i :: 0 <= i < |users| ==> MemberLineSafe(users[i])
  }
}
