/**
 * The users file (health_system.cpp, saveUsersToFile and loadUsersFromFile): every record
 * is a block of lines
 *
 *   username / password / name / medical condition /
 *   the six vitals separated by spaces / the number of food entries / one line per entry
 *
 * and the file is the blocks of all records in store order, each line ended by '\n'.
 */
module Codec {
  import opened Optional
  import opened Text
  import opened Records

  // ---------------------------------------------------------------------------------
  // Numeric fields

  /**
   * `operator>>` into an `int`: an integer token within the 32-bit range. The two ensures
   * only unfold the match for callers; `ParseInt32FormatInt` states what the read means.
   */
  function ParseInt32(t: string): (r: Option<int32>)
    ensures r.Some? <==> ParseInt(t).Some? && -0x8000_0000 <= ParseInt(t).value < 0x8000_0000
    ensures r.Some? ==> r.value as int == ParseInt(t).value
  {
    match ParseInt(t)
    case Some(x) => if -0x8000_0000 <= x < 0x8000_0000 then Some(x as int32) else None
    case None => None
  }

  /**
   * `operator>>` into an `int` reads back exactly what `operator<<` printed for an `int`;
   * a value outside the 32-bit range, printed as digits, is a failed read.
   */
  lemma ParseInt32FormatInt(x: int)
    ensures -0x8000_0000 <= x < 0x8000_0000 ==> ParseInt32(FormatInt(x)) == Some(x as int32)
    ensures !(-0x8000_0000 <= x < 0x8000_0000) ==> ParseInt32(FormatInt(x)) == None
  {
    ParseFormatInt(x);
  }

  /** The six readings of a record, as integers, in the order they are written and read. */
  function Readings(h: HealthData): seq<int>
  {
    [ h.systolicBP as int, h.diastolicBP as int, h.pulseRate as int, h.respiratoryRate as int
    , h.bloodSugar, h.temperature ]
  }

  /** The six readings in the order they are written. */
  function VitalsTokens(h: HealthData): seq<string>
  {
    [ FormatInt(h.systolicBP as int), FormatInt(h.diastolicBP as int)
    , FormatInt(h.pulseRate as int), FormatInt(h.respiratoryRate as int)
    , FormatInt(h.bloodSugar), FormatInt(h.temperature) ]
  }

  /** The vitals line: the six readings separated by single spaces. */
  function VitalsLine(h: HealthData): string
  {
    JoinWords(VitalsTokens(h))
  }

  /**
   * The six extractions of the vitals line: exactly six integer tokens, the first four in
   * the 32-bit range. The food log of the result is empty; the count and the entries follow.
   */
  function ParseVitals(line: string): (r: Option<HealthData>)
    ensures r.Some? ==> |Tokens(line)| == 6 && r.value.foodLog == []
    ensures r.Some? ==> forall i :: 0 <= i < 6 ==> ParseInt(Tokens(line)[i]) == Some(Readings(r.value)[i])
  {
    var ts := Tokens(line);
    if |ts| != 6 then None
    else
      match (ParseInt32(ts[0]), ParseInt32(ts[1]), ParseInt32(ts[2]), ParseInt32(ts[3]),
             ParseInt(ts[4]), ParseInt(ts[5]))
      case (Some(s), Some(d), Some(p), Some(r), Some(b), Some(t)) =>
        Some(HealthData(s, d, p, r, b, t, []))
      case _ => None
  }

  /** The count line: one non-negative integer and nothing else before the '\n'. */
  function ParseCount(line: string): (r: Option<nat>)
    ensures r.Some? ==> IsWord(line) && ParseInt(line) == Some(r.value as int)
    ensures ParseInt(line).Some? && ParseInt(line).value >= 0 ==> r.Some?
  {
    match ParseInt(line)
    case Some(n) => if n >= 0 then Some(n) else None
    case None => None
  }

  /** The vitals line reads back as the six readings it was written from. */
  lemma ParseVitalsLine(h: HealthData)
    ensures ParseVitals(VitalsLine(h)) == Some(h.(foodLog := []))
  {
    var ts := VitalsTokens(h);
    TokensOfJoinWords(ts);
    ParseFormatInt(h.systolicBP as int);
    ParseFormatInt(h.diastolicBP as int);
    ParseFormatInt(h.pulseRate as int);
    ParseFormatInt(h.respiratoryRate as int);
    ParseFormatInt(h.bloodSugar);
    ParseFormatInt(h.temperature);
  }

  /** The vitals line never holds a '\n'. */
  lemma VitalsLineOneLine(h: HealthData)
    ensures '\n' !in VitalsLine(h)
  {
    JoinWordsOneLine(VitalsTokens(h));
  }

  // ---------------------------------------------------------------------------------
  // One record

  /** The block of lines one record is written as. */
  function EncodeMember(m: Member): (lines: seq<string>)
    ensures |lines| == 6 + |m.health.foodLog|
    ensures lines[..4] == [m.username, m.password, m.name, m.medicalCondition]
    ensures lines[6..] == m.health.foodLog
  {
    [ m.username, m.password, m.name, m.medicalCondition
    , VitalsLine(m.health), FormatInt(|m.health.foodLog|) ] + m.health.foodLog
  }

  /**
   * Reads one record block from the front of `lines`: four text lines, the vitals line, the
   * count line and that many food entries. Gives the record and the number of lines used,
   * or None when the block is short or a number does not read.
   */
  function DecodeMember(lines: seq<string>): (r: Option<(Member, nat)>)
    ensures r.Some? ==> 6 <= r.value.1 <= |lines|
  {
    if |lines| < 6 then None
    else
      match (ParseVitals(lines[4]), ParseCount(lines[5]))
      case (Some(h), Some(n)) =>
        if 6 + n <= |lines| then
          Some((Member(lines[0], lines[1], lines[2], lines[3], h.(foodLog := lines[6..6 + n])), 6 + n))
        else None
      case _ => None
  }

  /**
   * A record takes 6 + |food log| lines: its count line reads as the length of the food
   * log, and the entries follow it in log order.
   */
  lemma EncodeMemberLayout(m: Member)
    ensures |EncodeMember(m)| == 6 + |m.health.foodLog|
    ensures ParseCount(EncodeMember(m)[5]) == Some(|m.health.foodLog|)
    ensures EncodeMember(m)[6..] == m.health.foodLog
  {
    ParseFormatInt(|m.health.foodLog|);
  }

  /** Reading a record's block gives the record back and uses exactly its lines. */
  lemma DecodeEncodeMember(m: Member, rest: seq<string>)
    ensures DecodeMember(EncodeMember(m) + rest) == Some((m, 6 + |m.health.foodLog|))
  {
    var block := EncodeMember(m);
    var lines := block + rest;
    var n := |m.health.foodLog|;
    EncodeMemberLayout(m);
    assert lines[4] == VitalsLine(m.health);
    assert lines[5] == block[5];
    ParseVitalsLine(m.health);
    assert lines[6..6 + n] == m.health.foodLog;
  }

  /** Every line of a record's block is free of '\n' exactly when the record is. */
  lemma EncodeMemberLineSafe(m: Member)
    ensures NoNewlines(EncodeMember(m)) <==> MemberLineSafe(m)
  {
    var lines := EncodeMember(m);
    VitalsLineOneLine(m.health);
    assert lines[4] == VitalsLine(m.health);
    assert forall i :: 6 <= i < |lines| ==> lines[i] == m.health.foodLog[i - 6];
    if MemberLineSafe(m) {
      forall i | 0 <= i < |lines| ensures '\n' !in lines[i] {
        if i >= 6 {
          assert lines[i] == m.health.foodLog[i - 6];
        }
      }
    }
    if NoNewlines(lines) {
      assert lines[0] == m.username && lines[1] == m.password;
      assert lines[2] == m.name && lines[3] == m.medicalCondition;
      forall i | 0 <= i < |m.health.foodLog| ensures '\n' !in m.health.foodLog[i] {
        assert lines[i + 6] == m.health.foodLog[i];
      }
    }
  }

  // ---------------------------------------------------------------------------------
  // The whole store

  /** The lines of the whole file: the blocks of all records, in store order. */
  function Encode(users: seq<Member>): (lines: seq<string>)
    ensures lines == [] <==> users == []
    ensures |lines| >= 6 * |users|
  {
    if users == [] then [] else EncodeMember(users[0]) + Encode(users[1..])
  }

  lemma {:induction false} EncodeAppend(users: seq<Member>, m: Member)
    ensures Encode(users + [m]) == Encode(users) + EncodeMember(m)
    decreases |users|
  {
    if users == [] {
      assert users + [m] == [m];
      assert Encode([m]) == EncodeMember(m) + Encode([]);
    } else {
      assert (users + [m])[1..] == users[1..] + [m];
      EncodeAppend(users[1..], m);
    }
  }

  /**
   * The loading loop over lines: as long as a line is left, read a record block from it;
   * a block that does not read makes the whole file unreadable.
   */
  function Decode(lines: seq<string>): (r: Option<seq<Member>>)
    ensures r.Some? ==> 6 * |r.value| <= |lines|
    ensures r.Some? ==> (r.value == [] <==> lines == [])
    decreases |lines|
  {
    if lines == [] then Some([])
    else
      match DecodeMember(lines)
      case None => None
      case Some((m, used)) =>
        match Decode(lines[used..])
        case None => None
        case Some(ms) => Some([m] + ms)
  }

  /** Readable lines start with a readable block, and the lines after it are readable too. */
  lemma DecodeStep(lines: seq<string>)
    requires lines != [] && Decode(lines).Some?
    ensures DecodeMember(lines).Some?
    ensures var used := DecodeMember(lines).value.1;
            && Decode(lines[used..]).Some?
            && Decode(lines).value == [DecodeMember(lines).value.0] + Decode(lines[used..]).value
  {
  }

  /** After a readable block at line `pos`, the remaining lines read as the rest of the records. */
  lemma DecodeAdvance(lines: seq<string>, pos: nat, u: Member, next: nat)
    requires pos < next <= |lines| && Decode(lines[pos..]).Some?
    requires DecodeMember(lines[pos..]) == Some((u, next - pos))
    ensures Decode(lines[next..]).Some?
    ensures Decode(lines[pos..]).value == [u] + Decode(lines[next..]).value
  {
    var tail := lines[pos..];
    DecodeAfter(tail, u, next - pos);
    assert tail[next - pos..] == lines[next..];
  }

  /** Proof step for the load loop: `Decode` unfolded once, for a block already read. */
  lemma DecodeAfter(tail: seq<string>, u: Member, used: nat)
    requires tail != [] && Decode(tail).Some? && DecodeMember(tail) == Some((u, used))
    ensures Decode(tail[used..]).Some? && Decode(tail).value == [u] + Decode(tail[used..]).value
  {
  }

  /** What a readable block is made of, field by field. */
  lemma DecodeMemberFields(lines: seq<string>)
    requires DecodeMember(lines).Some?
    ensures |lines| >= 6 && ParseVitals(lines[4]).Some? && ParseCount(lines[5]).Some?
    ensures DecodeMember(lines).value.1 == 6 + ParseCount(lines[5]).value
    ensures DecodeMember(lines).value.0
         == Member(lines[0], lines[1], lines[2], lines[3],
                   ParseVitals(lines[4]).value.(foodLog := lines[6..6 + ParseCount(lines[5]).value]))
  {
  }

  /** A readable block at line `pos`, field by field. */
  lemma DecodeMemberAt(lines: seq<string>, pos: nat)
    requires pos <= |lines| && DecodeMember(lines[pos..]).Some?
    ensures pos + 6 <= |lines| && ParseVitals(lines[pos + 4]).Some? && ParseCount(lines[pos + 5]).Some?
    ensures pos + 6 + ParseCount(lines[pos + 5]).value <= |lines|
    ensures DecodeMember(lines[pos..]).value
         == (Member(lines[pos], lines[pos + 1], lines[pos + 2], lines[pos + 3],
                    ParseVitals(lines[pos + 4]).value.(foodLog := lines[pos + 6..pos + 6 + ParseCount(lines[pos + 5]).value])),
             6 + ParseCount(lines[pos + 5]).value)
  {
    var block := lines[pos..];
    DecodeMemberFields(block);
    assert block[4] == lines[pos + 4] && block[5] == lines[pos + 5];
    var n := ParseCount(lines[pos + 5]).value;
    assert block[6..6 + n] == lines[pos + 6..pos + 6 + n];
  }

  /**
   * The body of loadUsersFromFile's loop: reads the record block at line `pos` (four text
   * lines, the six readings, the count, then that many food lines) and gives the record
   * and the line after the block.
   */
  method ReadMember(lines: seq<string>, pos: nat) returns (u: Member, next: nat)
    requires pos <= |lines| && DecodeMember(lines[pos..]).Some?
    ensures pos < next <= |lines|
    ensures DecodeMember(lines[pos..]) == Some((u, next - pos))
  {
    DecodeMemberAt(lines, pos);
    var username := lines[pos];
    var password := lines[pos + 1];
    var name := lines[pos + 2];
    var medicalCondition := lines[pos + 3];
    var health := ParseVitals(lines[pos + 4]).value;
    var foodCount := ParseCount(lines[pos + 5]).value;
    var food: seq<string> := [];
    var i := 0;
    while i < foodCount
      invariant 0 <= i <= foodCount
      invariant food == lines[pos + 6..pos + 6 + i]
    {
      food := food + [lines[pos + 6 + i]];
      i := i + 1;
    }
    u := Member(username, password, name, medicalCondition, health.(foodLog := food));
    next := pos + 6 + foodCount;
  }

  /**
   * The body of saveUsersToFile's loop, with the output stream seen as the lines written
   * so far (every `<< '\n'` ends one): the four text fields, the vitals line and the count
   * line, then the food entries in log order.
   */
  method WriteMember(out: seq<string>, u: Member) returns (written: seq<string>)
    ensures written == out + EncodeMember(u)
  {
    written := out + [u.username, u.password, u.name, u.medicalCondition,
                      VitalsLine(u.health), FormatInt(|u.health.foodLog|)];
    var j := 0;
    while j < |u.health.foodLog|
      invariant 0 <= j <= |u.health.foodLog|
      invariant written == out + EncodeMember(u)[..6 + j]
    {
      written := written + [u.health.foodLog[j]];
      j := j + 1;
    }
  }

  /** Decoding the lines of any store gives back the same records in the same order. */
  lemma {:induction false} DecodeEncode(users: seq<Member>)
    ensures Decode(Encode(users)) == Some(users)
    decreases |users|
  {
    if users != [] {
      var m := users[0];
      var rest := Encode(users[1..]);
      DecodeEncodeMember(m, rest);
      assert (EncodeMember(m) + rest)[|EncodeMember(m)|..] == rest;
      DecodeEncode(users[1..]);
      assert [m] + users[1..] == users;
    }
  }

  lemma {:induction false} EncodeLineSafe(users: seq<Member>)
    ensures NoNewlines(Encode(users)) <==> LineSafe(users)
    decreases |users|
  {
    if users != [] {
      var a, b := EncodeMember(users[0]), Encode(users[1..]);
      EncodeMemberLineSafe(users[0]);
      EncodeLineSafe(users[1..]);
      assert forall i :: 0 <= i < |a| ==> (a + b)[i] == a[i];
      assert forall i :: 0 <= i < |b| ==> (a + b)[|a| + i] == b[i];
      assert NoNewlines(a + b) <==> NoNewlines(a) && NoNewlines(b);
      assert LineSafe(users) <==> MemberLineSafe(users[0]) && LineSafe(users[1..]) by {
        assert forall i :: 1 <= i < |users| ==> users[i] == users[1..][i - 1];
      }
    }
  }

  /** Every record read from lines free of '\n' is itself free of '\n'. */
  lemma {:induction false} DecodeLineSafe(lines: seq<string>)
    requires NoNewlines(lines)
    requires Decode(lines).Some?
    ensures LineSafe(Decode(lines).value)
    decreases |lines|
  {
    if lines != [] {
      var (m, used) := DecodeMember(lines).value;
      assert lines[2] == m.name;
      assert forall i :: 0 <= i < |m.health.foodLog| ==> m.health.foodLog[i] == lines[6 + i];
      assert MemberLineSafe(m);
      assert NoNewlines(lines[used..]);
      DecodeLineSafe(lines[used..]);
      var ms := Decode(lines[used..]).value;
      assert Decode(lines).value == [m] + ms;
      assert forall i :: 1 <= i < |[m] + ms| ==> ([m] + ms)[i] == ms[i - 1];
    }
  }

  // ---------------------------------------------------------------------------------
  // The file as characters

  /** The characters saveUsersToFile writes: nothing for an empty store, else lines each ended by '\n'. */
  function EncodeText(users: seq<Member>): (s: string)
    ensures s == [] <==> users == []
    ensures s != [] ==> s[|s| - 1] == '\n'
  {
    JoinLines(Encode(users))
  }

  /**
   * The records loadUsersFromFile reads from a file's characters, if they read. No record
   * read from a file holds a '\n' in any field: `getline` never yields one.
   */
  function DecodeText(text: string): (r: Option<seq<Member>>)
    ensures r.Some? ==> LineSafe(r.value)
  {
    var lines := SplitLines(text);
    if Decode(lines).Some? then DecodeLineSafe(lines); Decode(lines) else None
  }

  /**
   * The saved file reads back as the very same store exactly when no free-text field holds
   * a '\n'; a '\n' in a field splits it over two lines and shifts every line after it.
   */
  lemma ReloadIffLineSafe(users: seq<Member>)
    ensures DecodeText(EncodeText(users)) == Some(users) <==> LineSafe(users)
  {
    var lines := Encode(users);
    SplitJoinLines(lines);
    EncodeLineSafe(users);
    if LineSafe(users) {
      DecodeEncode(users);
    }
    if DecodeText(EncodeText(users)) == Some(users) {
      DecodeLineSafe(SplitLines(EncodeText(users)));
    }
  }
}
