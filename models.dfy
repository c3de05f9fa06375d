/** The records of the gift-exchange store: participants, matches and settings,
    with their column defaults, their uniqueness constraints and the way the
    database hands out primary keys. */
module Models {

  datatype Option<+T> = None | Some(value: T)

  /** The outcome of a handler: what it produced, or why it refused. */
  datatype Result<+T, +E> = Success(value: T) | Failure(error: E)

  /** Declared column widths. */
  const NameColumnLength := 100

  /** A registered participant. The gift preference column is nullable. */
  datatype Participant = Participant(id: nat, name: string, email: string, giftPreference: Option<string>)

  /** A giver -> receiver assignment with its three notification/reveal flags. */
  datatype Match = Match(id: nat, giverId: nat, receiverId: nat,
                         emailSent: bool, revealed: bool, thankYouEmailSent: bool)

  /** A key/value setting; only ever deleted by the lifecycle. */
  datatype Setting = Setting(id: nat, key: string, value: Option<string>)

  /** A freshly inserted match: every flag takes its column default, false. */
  function NewMatch(id: nat, giverId: nat, receiverId: nat): (m: Match)
    ensures m.id == id && m.giverId == giverId && m.receiverId == receiverId
    ensures !m.emailSent && !m.revealed && !m.thankYouEmailSent
  {
    Match(id, giverId, receiverId, false, false, false)
  }

  predicate Distinct(s: seq<nat>)
  {
    forall i, j :: 0 <= i < j < |s| ==> s[i] != s[j]
  }

  function ParticipantIds(ps: seq<Participant>): (ids: seq<nat>)
    ensures |ids| == |ps|
    ensures forall i :: 0 <= i < |ps| ==> ids[i] == ps[i].id
  {
    seq(|ps|, i requires 0 <= i < |ps| => ps[i].id)
  }

  function MatchIds(ms: seq<Match>): (ids: seq<nat>)
    ensures |ids| == |ms|
    ensures forall i :: 0 <= i < |ms| ==> ids[i] == ms[i].id
  {
    seq(|ms|, i requires 0 <= i < |ms| => ms[i].id)
  }

  function SettingIds(ss: seq<Setting>): (ids: seq<nat>)
    ensures |ids| == |ss|
    ensures forall i :: 0 <= i < |ss| ==> ids[i] == ss[i].id
  {
    seq(|ss|, i requires 0 <= i < |ss| => ss[i].id)
  }

  /** The rowid SQLite gives the next inserted row: one more than the largest
      rowid in the table, or 1 when the table is empty. */
  function NextRowId(ids: seq<nat>): (r: nat)
    ensures r >= 1
    ensures forall i :: 0 <= i < |ids| ==> ids[i] < r
    ensures r == 1 || exists i :: 0 <= i < |ids| && r == ids[i] + 1
  {
    if ids == [] then 1
    else
      var rest := NextRowId(ids[..|ids| - 1]);
      var last := ids[|ids| - 1];
      if last + 1 > rest then last + 1 else rest
  }

  /** The unique, non-null email column: no two participants share an email. */
  predicate EmailsUnique(ps: seq<Participant>)
  {
    forall i, j :: 0 <= i < j < |ps| ==> ps[i].email != ps[j].email
  }

  predicate EmailTaken(ps: seq<Participant>, email: string)
  {
    exists i :: 0 <= i < |ps| && ps[i].email == email
  }

  /** A participant as registration admits one: a non-empty name within the
      100-character name column. */
  predicate NameFits(p: Participant)
  {
    0 < |p.name| <= NameColumnLength
  }

  predicate IsParticipantId(ps: seq<Participant>, id: nat)
  {
    exists i :: 0 <= i < |ps| && ps[i].id == id
  }

  /** The two non-null foreign keys of every match refer to a participant. */
  predicate MatchesReferToParticipants(ms: seq<Match>, ps: seq<Participant>)
  {
    forall i :: 0 <= i < |ms| ==> IsParticipantId(ps, ms[i].giverId) && IsParticipantId(ps, ms[i].receiverId)
  }

  predicate SettingKeysUnique(ss: seq<Setting>)
  {
    forall i, j :: 0 <= i < j < |ss| ==> ss[i].key != ss[j].key
  }

  /** Everything the schema and the handlers keep true of the stored rows. */
  predicate Consistent(ps: seq<Participant>, ms: seq<Match>, ss: seq<Setting>)
  {
    && Distinct(ParticipantIds(ps))
    && EmailsUnique(ps)
    && (forall i :: 0 <= i < |ps| ==> NameFits(ps[i]))
    && Distinct(MatchIds(ms))
    && MatchesReferToParticipants(ms, ps)
    && Distinct(SettingIds(ss))
    && SettingKeysUnique(ss)
  }

  /** Looks a participant up by primary key. */
  function FindParticipant(ps: seq<Participant>, id: nat): (r: Option<Participant>)
    ensures r.Some? <==> IsParticipantId(ps, id)
    ensures r.Some? ==> r.value.id == id && r.value in ps
  {
    if ps == [] then None
    else if ps[0].id == id then Some(ps[0])
    else
      var r := FindParticipant(ps[1..], id);
      assert r.Some? ==> r.value in ps;
      assert IsParticipantId(ps, id) && ps[0].id != id ==> IsParticipantId(ps[1..], id) by {
        if IsParticipantId(ps, id) && ps[0].id != id {
          var i :| 0 <= i < |ps| && ps[i].id == id;
          assert ps[1..][i - 1].id == id;
        }
      }
      r
  }

  /** Looks a match up by primary key and gives its position. */
  function FindMatch(ms: seq<Match>, id: nat): (r: Option<nat>)
    ensures r.Some? ==> r.value < |ms| && ms[r.value].id == id
    ensures r.None? ==> forall i :: 0 <= i < |ms| ==> ms[i].id != id
  {
    if ms == [] then None
    else if ms[|ms| - 1].id == id then Some(|ms| - 1)
    else FindMatch(ms[..|ms| - 1], id)
  }
}
