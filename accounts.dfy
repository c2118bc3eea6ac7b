/**
 * The record store of health_system.cpp: the global `users` list, the users file it is
 * saved to after every change, and the account operations that read and change them.
 */
module Accounts {
  import opened Optional
  import opened Text
  import opened Records
  import opened Codec

  // ---------------------------------------------------------------------------------
  // Lookups

  /** The login search: the position of the first record with both credentials, if any. */
  function FirstCredentialMatch(users: seq<Member>, username: string, password: string): (r: Option<nat>)
    ensures r.Some? <==> exists i :: 0 <= i < |users| && HasCredentials(users[i], username, password)
    ensures r.Some? ==> r.value < |users| && HasCredentials(users[r.value], username, password)
    ensures r.Some? ==> forall j :: 0 <= j < r.value ==> !HasCredentials(users[j], username, password)
  {
    if users == [] then None
    else if HasCredentials(users[0], username, password) then Some(0)
    else
      match FirstCredentialMatch(users[1..], username, password)
      case None => None
      case Some(k) => Some(k + 1)
  }

  /** The delete search: the position of the first record with this username, if any. */
  function FirstUsernameMatch(users: seq<Member>, username: string): (r: Option<nat>)
    ensures r.Some? <==> exists i :: 0 <= i < |users| && users[i].username == username
    ensures r.Some? ==> r.value < |users| && users[r.value].username == username
    ensures r.Some? ==> forall j :: 0 <= j < r.value ==> users[j].username != username
  {
    if users == [] then None
    else if users[0].username == username then Some(0)
    else
      match FirstUsernameMatch(users[1..], username)
      case None => None
      case Some(k) => Some(k + 1)
  }

  /** The store without the record at position `i`, the others kept in order. */
  function RemoveAt(users: seq<Member>, i: nat): seq<Member>
    requires i < |users|
  {
    users[..i] + users[i + 1..]
  }

  /** The store after deleteAccount(username): the first record with that username is gone. */
  function RemoveFirstUser(users: seq<Member>, username: string): (r: seq<Member>)
    ensures (forall i :: 0 <= i < |users| ==> users[i].username != username) ==> r == users
    ensures forall i :: 0 <= i < |users| && users[i].username == username
                        && (forall j :: 0 <= j < i ==> users[j].username != username)
                        ==> r == users[..i] + users[i + 1..]
  {
    match FirstUsernameMatch(users, username)
    case None => users
    case Some(i) => RemoveAt(users, i)
  }

  /** How many records carry both credentials. */
  function CredentialCount(users: seq<Member>, username: string, password: string): nat
  {
    if users == [] then 0
    else (if HasCredentials(users[0], username, password) then 1 else 0)
         + CredentialCount(users[1..], username, password)
  }

  // ---------------------------------------------------------------------------------
  // Record updates

  /** The record after logFood appended `meal` to its food log. */
  function WithMeal(m: Member, meal: string): (r: Member)
    ensures r.(health := m.health) == m
    ensures r.health.(foodLog := m.health.foodLog) == m.health
    ensures |r.health.foodLog| == |m.health.foodLog| + 1 && r.health.foodLog[|m.health.foodLog|] == meal
    ensures r.health.foodLog[..|m.health.foodLog|] == m.health.foodLog
  {
    m.(health := m.health.(foodLog := m.health.foodLog + [meal]))
  }

  /** The record after inputVitals overwrote its six readings. */
  function WithVitals(m: Member, systolicBP: int32, diastolicBP: int32, pulseRate: int32,
                      respiratoryRate: int32, bloodSugar: int, temperature: int): (r: Member)
    ensures r.(health := m.health) == m
    ensures r.health.foodLog == m.health.foodLog
    ensures Readings(r.health) == [systolicBP as int, diastolicBP as int, pulseRate as int,
                                   respiratoryRate as int, bloodSugar, temperature]
  {
    m.(health := HealthData(systolicBP, diastolicBP, pulseRate, respiratoryRate,
                            bloodSugar, temperature, m.health.foodLog))
  }

  // ---------------------------------------------------------------------------------
  // What the lookups see after an update

  /** The login search over two runs of records: a match in the first run wins. */
  lemma {:induction false} FirstCredentialMatchAppend(a: seq<Member>, b: seq<Member>, username: string, password: string)
    ensures FirstCredentialMatch(a + b, username, password)
         == match FirstCredentialMatch(a, username, password)
            case Some(i) => Some(i)
            case None =>
              match FirstCredentialMatch(b, username, password)
              case None => None
              case Some(k) => Some(|a| + k)
    decreases |a|
  {
    if a == [] {
      assert a + b == b;
    } else {
      assert (a + b)[1..] == a[1..] + b;
      FirstCredentialMatchAppend(a[1..], b, username, password);
    }
  }

  /**
   * Logging in with the credentials just registered finds the new record, unless an
   * earlier record already holds the same username and password, which then wins.
   */
  lemma RegisterThenLogin(users: seq<Member>, username: string, password: string, name: string,
                          medicalCondition: string)
    ensures FirstCredentialMatch(users + [NewMember(username, password, name, medicalCondition)], username, password)
         == if FirstCredentialMatch(users, username, password).Some?
            then FirstCredentialMatch(users, username, password)
            else Some(|users|)
  {
    FirstCredentialMatchAppend(users, [NewMember(username, password, name, medicalCondition)], username, password);
  }

  /** Two stores whose records carry the same usernames and passwords, position by position. */
  predicate SameCredentials(a: seq<Member>, b: seq<Member>)
  {
    |a| == |b| && forall i :: 0 <= i < |a| ==> a[i].username == b[i].username && a[i].password == b[i].password
  }

  /** Both searches look only at usernames and passwords. */
  lemma {:induction false} SameCredentialsSameMatches(a: seq<Member>, b: seq<Member>, username: string, password: string)
    requires SameCredentials(a, b)
    ensures FirstCredentialMatch(a, username, password) == FirstCredentialMatch(b, username, password)
    ensures FirstUsernameMatch(a, username) == FirstUsernameMatch(b, username)
    decreases |a|
  {
    if a != [] {
      assert SameCredentials(a[1..], b[1..]);
      SameCredentialsSameMatches(a[1..], b[1..], username, password);
    }
  }

  /** Logging food changes neither which record a login reaches nor which record a delete erases. */
  lemma LogFoodKeepsLookups(users: seq<Member>, member: nat, meal: string, username: string, password: string)
    requires member < |users|
    ensures var after := users[member := WithMeal(users[member], meal)];
            && FirstCredentialMatch(after, username, password) == FirstCredentialMatch(users, username, password)
            && FirstUsernameMatch(after, username) == FirstUsernameMatch(users, username)
  {
    SameCredentialsSameMatches(users[member := WithMeal(users[member], meal)], users, username, password);
  }

  /** Updating vitals changes neither which record a login reaches nor which record a delete erases. */
  lemma InputVitalsKeepsLookups(users: seq<Member>, member: nat, systolicBP: int32, diastolicBP: int32,
                                pulseRate: int32, respiratoryRate: int32, bloodSugar: int, temperature: int,
                                username: string, password: string)
    requires member < |users|
    ensures var after := users[member := WithVitals(users[member], systolicBP, diastolicBP, pulseRate,
                                                    respiratoryRate, bloodSugar, temperature)];
            && FirstCredentialMatch(after, username, password) == FirstCredentialMatch(users, username, password)
            && FirstUsernameMatch(after, username) == FirstUsernameMatch(users, username)
  {
    SameCredentialsSameMatches(users[member := WithVitals(users[member], systolicBP, diastolicBP, pulseRate,
                                                          respiratoryRate, bloodSugar, temperature)],
                               users, username, password);
  }

  // ---------------------------------------------------------------------------------
  // What the users file can carry after an update

  /**
   * A registration keeps the store reloadable exactly when none of its four answers holds
   * a '\n' (the program reads them with `>>` and `getline`, which never yield one).
   */
  lemma RegisterLineSafe(users: seq<Member>, username: string, password: string, name: string,
                         medicalCondition: string)
    requires LineSafe(users)
    ensures LineSafe(users + [NewMember(username, password, name, medicalCondition)])
        <==> '\n' !in username && '\n' !in password && '\n' !in name && '\n' !in medicalCondition
  {
    var after := users + [NewMember(username, password, name, medicalCondition)];
    assert after[|users|] == NewMember(username, password, name, medicalCondition);
    assert forall i :: 0 <= i < |users| ==> after[i] == users[i];
  }

  /** Logging a meal keeps the store reloadable exactly when the meal text holds no '\n'. */
  lemma LogFoodLineSafe(users: seq<Member>, member: nat, meal: string)
    requires member < |users| && LineSafe(users)
    ensures LineSafe(users[member := WithMeal(users[member], meal)]) <==> '\n' !in meal
  {
    var m := WithMeal(users[member], meal);
    var log := m.health.foodLog;
    assert log[|log| - 1] == meal;
    assert forall i :: 0 <= i < |log| - 1 ==> log[i] == users[member].health.foodLog[i];
    assert users[member := m][member] == m;
  }

  /** Updating vitals touches no free-text field, so the store stays reloadable. */
  lemma InputVitalsLineSafe(users: seq<Member>, member: nat, systolicBP: int32, diastolicBP: int32,
                            pulseRate: int32, respiratoryRate: int32, bloodSugar: int, temperature: int)
    requires member < |users| && LineSafe(users)
    ensures LineSafe(users[member := WithVitals(users[member], systolicBP, diastolicBP, pulseRate,
                                                respiratoryRate, bloodSugar, temperature)])
  {
  }

  /** Erasing a record keeps the store reloadable. */
  lemma RemoveAtLineSafe(users: seq<Member>, i: nat)
    requires i < |users| && LineSafe(users)
    ensures LineSafe(RemoveAt(users, i))
  {
    var after := RemoveAt(users, i);
    assert forall j :: 0 <= j < |after| ==> after[j] == users[if j < i then j else j + 1];
  }

  // ---------------------------------------------------------------------------------
  // Which record a delete erases

  lemma {:induction false} CredentialCountAppend(a: seq<Member>, b: seq<Member>, username: string, password: string)
    ensures CredentialCount(a + b, username, password)
         == CredentialCount(a, username, password) + CredentialCount(b, username, password)
    decreases |a|
  {
    if a == [] {
      assert a + b == b;
    } else {
      assert (a + b)[1..] == a[1..] + b;
      CredentialCountAppend(a[1..], b, username, password);
    }
  }

  /** Erasing the record at `i` loses one holder of the credentials exactly when that record holds them. */
  lemma CredentialCountRemoveAt(users: seq<Member>, i: nat, username: string, password: string)
    requires i < |users|
    ensures CredentialCount(RemoveAt(users, i), username, password)
         == CredentialCount(users, username, password) - (if HasCredentials(users[i], username, password) then 1 else 0)
  {
    assert users == users[..i] + ([users[i]] + users[i + 1..]);
    CredentialCountAppend(users[..i], [users[i]] + users[i + 1..], username, password);
    CredentialCountAppend([users[i]], users[i + 1..], username, password);
    CredentialCountAppend(users[..i], users[i + 1..], username, password);
  }

  /**
   * As written, the account menu deletes by the session's username: when an earlier record
   * has that username with another password, that record is erased instead, and the
   * session's own credentials still log in as often as before.
   */
  lemma DeleteAccountKeepsSession(users: seq<Member>, member: nat)
    requires member < |users|
    requires FirstUsernameMatch(users, users[member].username).Some?
    requires users[FirstUsernameMatch(users, users[member].username).value].password != users[member].password
    ensures var m := users[member];
            && RemoveFirstUser(users, m.username) == RemoveAt(users, FirstUsernameMatch(users, m.username).value)
            && FirstUsernameMatch(users, m.username).value < member
            && CredentialCount(RemoveFirstUser(users, m.username), m.username, m.password)
               == CredentialCount(users, m.username, m.password)
  {
    var m := users[member];
    var j := FirstUsernameMatch(users, m.username).value;
    assert j != member;
    assert RemoveFirstUser(users, m.username) == RemoveAt(users, j);
    CredentialCountRemoveAt(users, j, m.username, m.password);
  }

  /**
   * Two members registered as "alice": the second logs in, chooses "Delete Account", and
   * the first one's record is the one erased.
   */
  lemma DeleteAccountErasesOtherMember()
    ensures var first := NewMember("alice", "pw1", "Alice A", "none");
            var second := NewMember("alice", "pw2", "Alice B", "diabetes");
            && FirstCredentialMatch([first, second], "alice", "pw2") == Some(1)
            && RemoveFirstUser([first, second], "alice") == [second]
  {
    var first := NewMember("alice", "pw1", "Alice A", "none");
    var second := NewMember("alice", "pw2", "Alice B", "diabetes");
    assert "pw1" != "pw2" by { assert "pw1"[2] != "pw2"[2]; }
    assert !HasCredentials(first, "alice", "pw2");
  }

  /** The corrected delete erases the session's own record: its credentials lose one holder. */
  lemma DeleteMemberErasesSession(users: seq<Member>, member: nat)
    requires member < |users|
    ensures var m := users[member];
            CredentialCount(RemoveAt(users, member), m.username, m.password)
            == CredentialCount(users, m.username, m.password) - 1
  {
    CredentialCountRemoveAt(users, member, users[member].username, users[member].password);
  }

  /** Proof step for the load loop: moving one record from the unread part to the loaded part. */
  lemma AppendOne(loaded: seq<Member>, u: Member, rest: seq<Member>)
    ensures loaded + ([u] + rest) == (loaded + [u]) + rest
  {
  }

  // ---------------------------------------------------------------------------------
  // The store

  class UserStore {
    /** The in-memory records, in registration (or file) order. */
    var users: seq<Member>
    /** The contents of the users file; None while the file does not exist. */
    var usersFile: Option<string>

    /** Process start: no records in memory, and whatever file the last run left behind. */
    constructor (file: Option<string>)
      ensures users == [] && usersFile == file
    {
      users := [];
      usersFile := file;
    }

    /** saveUsersToFile: truncates the file and writes every record's block in order. */
    method SaveUsers()
      modifies this`usersFile
      ensures usersFile == Some(EncodeText(users))
    {
      var out: seq<string> := [];
      var i := 0;
      while i < |users|
        invariant 0 <= i <= |users|
        invariant out == Encode(users[..i])
      {
        assert users[..i + 1] == users[..i] + [users[i]];
        EncodeAppend(users[..i], users[i]);
        out := WriteMember(out, users[i]);
        i := i + 1;
      }
      assert users[..i] == users;
      usersFile := Some(JoinLines(out));
    }

    /**
     * loadUsersFromFile: a missing file loads nothing; otherwise every record block of the
     * file is appended to the store, in file order. Only files whose blocks all read are
     * covered: on a short or garbled block the program goes on with stale fields.
     */
    method LoadUsers()
      requires usersFile.Some? ==> DecodeText(usersFile.value).Some?
      modifies this`users
      ensures usersFile.None? ==> users == old(users)
      ensures usersFile.Some? ==> users == old(users) + DecodeText(usersFile.value).value
    {
      if usersFile.None? {
        return;
      }
      var lines := SplitLines(usersFile.value);
      ghost var all := Decode(lines).value;
      ghost var remaining := all;
      var pos := 0;
      assert lines[pos..] == lines;
      ghost var loaded: seq<Member> := [];
      while pos < |lines|
        invariant 0 <= pos <= |lines|
        invariant Decode(lines[pos..]) == Some(remaining)
        invariant all == loaded + remaining
        invariant users == old(users) + loaded
        decreases |lines| - pos
      {
        DecodeStep(lines[pos..]);
        var u, next := ReadMember(lines, pos);
        DecodeAdvance(lines, pos, u, next);
        ghost var rest := Decode(lines[next..]).value;
        AppendOne(loaded, u, rest);
        users := users + [u];
        loaded := loaded + [u];
        pos := next;
        remaining := rest;
      }
      assert loaded == all;
    }

    /** registerUser: appends a new record with zero vitals and no food log, then saves. */
    method RegisterUser(username: string, password: string, name: string, medicalCondition: string)
      modifies this
      ensures users == old(users) + [NewMember(username, password, name, medicalCondition)]
      ensures usersFile == Some(EncodeText(users))
    {
      users := users + [NewMember(username, password, name, medicalCondition)];
      SaveUsers();
    }

    /**
     * login: scans the records in order and logs in as the first one whose username and
     * password both equal the input; None stands for "Incorrect username or password".
     */
    method Login(username: string, password: string) returns (member: Option<nat>)
      ensures member.Some? <==> exists i :: 0 <= i < |users| && HasCredentials(users[i], username, password)
      ensures member == FirstCredentialMatch(users, username, password)
    {
      var i := 0;
      while i < |users|
        invariant 0 <= i <= |users|
        invariant forall j :: 0 <= j < i ==> !HasCredentials(users[j], username, password)
      {
        if users[i].username == username && users[i].password == password {
          return Some(i);
        }
        i := i + 1;
      }
      return None;
    }

    /**
     * deleteAccount: erases the first record with this username and saves; when no record
     * has it, reports "not found" and leaves the store and the file alone.
     */
    method DeleteAccount(username: string) returns (found: bool)
      modifies this
      ensures found <==> exists i :: 0 <= i < |old(users)| && old(users)[i].username == username
      ensures users == RemoveFirstUser(old(users), username)
      ensures found ==> usersFile == Some(EncodeText(users))
      ensures !found ==> users == old(users) && usersFile == old(usersFile)
    {
      var i := 0;
      while i < |users|
        invariant 0 <= i <= |users|
        invariant users == old(users)
        invariant forall j :: 0 <= j < i ==> users[j].username != username
      {
        if users[i].username == username {
          users := RemoveAt(users, i);
          SaveUsers();
          return true;
        }
        i := i + 1;
      }
      return false;
    }

    /**
     * Deleting the logged-in member's own record, the one at the session's position, and
     * saving; the corrected form of the account menu's delete option.
     */
    method DeleteMember(member: nat)
      requires member < |users|
      modifies this
      ensures users == RemoveAt(old(users), member)
      ensures usersFile == Some(EncodeText(users))
    {
      users := RemoveAt(users, member);
      SaveUsers();
    }

    /** logFood: appends the meal text to the member's food log, then saves. */
    method LogFood(member: nat, meal: string)
      requires member < |users|
      modifies this
      ensures users == old(users)[member := WithMeal(old(users)[member], meal)]
      ensures users[member].health.foodLog == old(users)[member].health.foodLog + [meal]
      ensures usersFile == Some(EncodeText(users))
    {
      users := users[member := WithMeal(users[member], meal)];
      SaveUsers();
    }

    /** inputVitals: overwrites the member's six readings, then saves. */
    method InputVitals(member: nat, systolicBP: int32, diastolicBP: int32, pulseRate: int32,
                       respiratoryRate: int32, bloodSugar: int, temperature: int)
      requires member < |users|
      modifies this
      ensures users == old(users)[member := WithVitals(old(users)[member], systolicBP, diastolicBP,
                                                       pulseRate, respiratoryRate, bloodSugar, temperature)]
      ensures usersFile == Some(EncodeText(users))
    {
      users := users[member := WithVitals(users[member], systolicBP, diastolicBP,
                                          pulseRate, respiratoryRate, bloodSugar, temperature)];
      SaveUsers();
    }
  }

  /**
   * The next process start after a save: a new store over the saved file, loaded as main
   * does first, holds the same records as long as no field holds a '\n'.
   */
  method Restart(store: UserStore) returns (next: UserStore)
    requires store.usersFile == Some(EncodeText(store.users))
    requires LineSafe(store.users)
    ensures fresh(next)
    ensures next.users == store.users && next.usersFile == store.usersFile
  {
    ReloadIffLineSafe(store.users);
    next := new UserStore(store.usersFile);
    next.LoadUsers();
  }
}
