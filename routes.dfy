/** The lifecycle handlers over the shared store of participants, matches and
    settings: registration, match creation and clearing, the send loop, the
    reveal toggle, participant deletion and the full reset. Every guard
    re-derives the lock from the stored matches. */
module Routes {
  import opened Models
  import opened Sanitize
  import opened Cycle
  import opened Phases
  import opened Notify

  /** The longest gift preference registration accepts. */
  const PreferenceLimit := 500

  datatype RegisterError =
    | RegistrationClosed
    | NameRequired
    | NameTooLong
    | EmailRequired
    | InvalidEmail
    | PreferenceTooLong
    | EmailAlreadyRegistered

  datatype AdminError = EmailsAlreadySent | NotEnoughParticipants | NotFound

  /** What one pass of the send loop reports. */
  datatype SendSummary =
    | NothingToSend
    | Attempted(sentCount: nat, errorCount: nat, firstError: Option<string>)

  /** The stripped name is present and fits the name column. */
  predicate NameAccepted(name: string)
  {
    0 < |Strip(name)| <= NameColumnLength
  }

  /** The stripped email is present and the validator accepts it. */
  predicate EmailAccepted(email: string, validate: string -> Option<string>)
  {
    Strip(email) != [] && validate(Strip(email)).Some?
  }

  predicate PreferenceAccepted(giftPreference: string)
  {
    |Strip(giftPreference)| <= PreferenceLimit
  }

  /** Every check registration makes passes. */
  predicate Admissible(ps: seq<Participant>, ms: seq<Match>, name: string, email: string,
                       giftPreference: string, validate: string -> Option<string>)
  {
    && !AnySent(ms)
    && NameAccepted(name)
    && EmailAccepted(email, validate)
    && PreferenceAccepted(giftPreference)
    && !EmailTaken(ps, validate(Strip(email)).value)
  }

  /** The registration handler's form checks, in its order, over the
      stripped fields: the first that fails, if any. */
  function FormError(name: string, email: string, giftPreference: string,
                     validate: string -> Option<string>): (r: Option<RegisterError>)
    ensures r == Some(NameRequired) <==> Strip(name) == []
    ensures r == Some(NameTooLong) <==> |Strip(name)| > NameColumnLength
    ensures r == Some(EmailRequired) <==> NameAccepted(name) && Strip(email) == []
    ensures r == Some(InvalidEmail) <==> NameAccepted(name) && Strip(email) != [] && validate(Strip(email)).None?
    ensures r == Some(PreferenceTooLong) <==>
      NameAccepted(name) && EmailAccepted(email, validate) && !PreferenceAccepted(giftPreference)
    ensures r.None? <==> NameAccepted(name) && EmailAccepted(email, validate) && PreferenceAccepted(giftPreference)
    ensures r != Some(RegistrationClosed) && r != Some(EmailAlreadyRegistered)
  {
    var n := Strip(name);
    var e := Strip(email);
    if n == [] then Some(NameRequired)
    else if |n| > NameColumnLength then Some(NameTooLong)
    else if e == [] then Some(EmailRequired)
    else if validate(e).None? then Some(InvalidEmail)
    else if |Strip(giftPreference)| > PreferenceLimit then Some(PreferenceTooLong)
    else None
  }

  /** The registration handler's checks: closed once an email has gone out,
      then the form checks, then the unique email. What passes becomes the
      row the insert creates, with the next rowid and the validator's
      normalised address. */
  function Admit(ps: seq<Participant>, ms: seq<Match>, name: string, email: string,
                 giftPreference: string, validate: string -> Option<string>): (r: Result<Participant, RegisterError>)
    ensures r == Failure(RegistrationClosed) <==> AnySent(ms)
    ensures !AnySent(ms) && FormError(name, email, giftPreference, validate).Some? ==>
      r == Failure(FormError(name, email, giftPreference, validate).value)
    ensures r == Failure(EmailAlreadyRegistered) <==>
      && !AnySent(ms) && FormError(name, email, giftPreference, validate).None?
      && EmailTaken(ps, validate(Strip(email)).value)
    ensures r.Success? <==> Admissible(ps, ms, name, email, giftPreference, validate)
    ensures r.Success? ==>
      r.value == Participant(NextRowId(ParticipantIds(ps)), Strip(name), validate(Strip(email)).value, Some(Strip(giftPreference)))
  {
    var form := FormError(name, email, giftPreference, validate);
    if AnySent(ms) then Failure(RegistrationClosed)
    else if form.Some? then Failure(form.value)
    else
      var e := validate(Strip(email)).value;
      if EmailTaken(ps, e) then Failure(EmailAlreadyRegistered)
      else Success(Participant(NextRowId(ParticipantIds(ps)), Strip(name), e, Some(Strip(giftPreference))))
  }

  /** The row registration admits keeps the store consistent: a fresh
      rowid, an email nobody has, a name that fits its column. */
  lemma AdmitConsistent(ps: seq<Participant>, ms: seq<Match>, ss: seq<Setting>, name: string, email: string,
                        giftPreference: string, validate: string -> Option<string>)
    requires Consistent(ps, ms, ss)
    requires Admit(ps, ms, name, email, giftPreference, validate).Success?
    ensures Consistent(ps + [Admit(ps, ms, name, email, giftPreference, validate).value], ms, ss)
  {
    AppendParticipantConsistent(ps, ms, ss, Admit(ps, ms, name, email, giftPreference, validate).value);
  }

  /** The (giver, receiver) pairs of the stored matches. */
  function MatchPairs(ms: seq<Match>): (pairs: seq<(nat, nat)>)
    ensures |pairs| == |ms|
    ensures forall i :: 0 <= i < |ms| ==> pairs[i] == (ms[i].giverId, ms[i].receiverId)
  {
    seq(|ms|, i requires 0 <= i < |ms| => (ms[i].giverId, ms[i].receiverId))
  }

  /** The rows a batch insert of the pairs creates in an empty match table:
      rowids 1, 2, ... in order, every flag at its default. */
  function InsertedMatches(pairs: seq<(nat, nat)>): (ms: seq<Match>)
    ensures |ms| == |pairs| && MatchPairs(ms) == pairs
    ensures forall i :: 0 <= i < |ms| ==> ms[i].id == i + 1
    ensures forall i :: 0 <= i < |ms| ==> !ms[i].emailSent && !ms[i].revealed && !ms[i].thankYouEmailSent
  {
    seq(|pairs|, i requires 0 <= i < |pairs| => NewMatch(i + 1, pairs[i].0, pairs[i].1))
  }

  /** Consecutive rowids 1..n leave n + 1 as the next one. */
  lemma {:induction false} NextRowIdAfterBatch(ms: seq<Match>)
    requires forall i :: 0 <= i < |ms| ==> ms[i].id == i + 1
    ensures NextRowId(MatchIds(ms)) == |ms| + 1
  {
    if ms != [] {
      var prefix := ms[..|ms| - 1];
      NextRowIdAfterBatch(prefix);
      assert MatchIds(ms)[..|ms| - 1] == MatchIds(prefix);
    }
  }

  /** `db.session.delete(participant)`: the participants without that id. */
  function WithoutParticipant(ps: seq<Participant>, id: nat): (r: seq<Participant>)
    ensures forall p :: p in r <==> p in ps && p.id != id
    ensures Distinct(ParticipantIds(ps)) ==> Distinct(ParticipantIds(r))
    ensures EmailsUnique(ps) ==> EmailsUnique(r)
  {
    if ps == [] then []
    else
      var rest := WithoutParticipant(ps[1..], id);
      TailParticipants(ps);
      KeepFrontParticipant(ps, rest);
      ConsMembers(ps[0], rest);
      if ps[0].id == id then rest else [ps[0]] + rest
  }

  lemma ConsMembers<T>(x: T, s: seq<T>)
    ensures forall y :: y in [x] + s <==> y == x || y in s
  {
  }

  lemma TailParticipants(ps: seq<Participant>)
    requires ps != []
    ensures forall p :: p in ps <==> p == ps[0] || p in ps[1..]
    ensures Distinct(ParticipantIds(ps)) ==> Distinct(ParticipantIds(ps[1..]))
    ensures EmailsUnique(ps) ==> EmailsUnique(ps[1..])
  {
    assert ps == [ps[0]] + ps[1..];
    if Distinct(ParticipantIds(ps)) {
      forall i, j | 0 <= i < j < |ps| - 1 ensures ParticipantIds(ps[1..])[i] != ParticipantIds(ps[1..])[j] {
        assert ParticipantIds(ps)[i + 1] != ParticipantIds(ps)[j + 1];
      }
    }
  }

  lemma KeepFrontParticipant(ps: seq<Participant>, rest: seq<Participant>)
    requires ps != []
    requires forall p :: p in rest ==> p in ps[1..]
    requires Distinct(ParticipantIds(ps)) ==> Distinct(ParticipantIds(rest))
    requires EmailsUnique(ps) ==> EmailsUnique(rest)
    ensures Distinct(ParticipantIds(ps)) ==> Distinct(ParticipantIds([ps[0]] + rest))
    ensures EmailsUnique(ps) ==> EmailsUnique([ps[0]] + rest)
  {
    var r := [ps[0]] + rest;
    forall j | 0 < j < |r| ensures exists k :: 1 <= k < |ps| && r[j] == ps[k] {
      assert r[j] == rest[j - 1];
      assert rest[j - 1] in ps[1..];
      var k :| 0 <= k < |ps| - 1 && ps[1..][k] == rest[j - 1];
      assert ps[k + 1] == r[j];
    }
    if Distinct(ParticipantIds(ps)) {
      forall i, j | 0 <= i < j < |r| ensures r[i].id != r[j].id {
        if i > 0 {
          assert r[i] == rest[i - 1] && r[j] == rest[j - 1];
          assert ParticipantIds(rest)[i - 1] != ParticipantIds(rest)[j - 1];
        } else {
          var k :| 1 <= k < |ps| && r[j] == ps[k];
          assert ParticipantIds(ps)[0] != ParticipantIds(ps)[k];
        }
      }
    }
    if EmailsUnique(ps) {
      forall i, j | 0 <= i < j < |r| ensures r[i].email != r[j].email {
        if i > 0 {
          assert r[i] == rest[i - 1] && r[j] == rest[j - 1];
        } else {
          var k :| 1 <= k < |ps| && r[j] == ps[k];
        }
      }
    }
  }

  /** The match rows that remain once every match naming the id as giver or
      receiver is deleted. */
  function WithoutMatchesOf(ms: seq<Match>, id: nat): (r: seq<Match>)
    ensures forall m :: m in r <==> m in ms && m.giverId != id && m.receiverId != id
    ensures Distinct(MatchIds(ms)) ==> Distinct(MatchIds(r))
  {
    if ms == [] then []
    else
      var rest := WithoutMatchesOf(ms[1..], id);
      TailMatches(ms);
      KeepFrontMatch(ms, rest);
      ConsMembers(ms[0], rest);
      if ms[0].giverId == id || ms[0].receiverId == id then rest else [ms[0]] + rest
  }

  lemma TailMatches(ms: seq<Match>)
    requires ms != []
    ensures forall m :: m in ms <==> m == ms[0] || m in ms[1..]
    ensures Distinct(MatchIds(ms)) ==> Distinct(MatchIds(ms[1..]))
  {
    assert ms == [ms[0]] + ms[1..];
    if Distinct(MatchIds(ms)) {
      forall i, j | 0 <= i < j < |ms| - 1 ensures MatchIds(ms[1..])[i] != MatchIds(ms[1..])[j] {
        assert MatchIds(ms)[i + 1] != MatchIds(ms)[j + 1];
      }
    }
  }

  lemma KeepFrontMatch(ms: seq<Match>, rest: seq<Match>)
    requires ms != []
    requires forall m :: m in rest ==> m in ms[1..]
    requires Distinct(MatchIds(ms)) ==> Distinct(MatchIds(rest))
    ensures Distinct(MatchIds(ms)) ==> Distinct(MatchIds([ms[0]] + rest))
  {
    var r := [ms[0]] + rest;
    if Distinct(MatchIds(ms)) {
      forall i, j | 0 <= i < j < |r| ensures r[i].id != r[j].id {
        if i > 0 {
          assert r[i] == rest[i - 1] && r[j] == rest[j - 1];
          assert MatchIds(rest)[i - 1] != MatchIds(rest)[j - 1];
        } else {
          assert r[j] == rest[j - 1];
          assert rest[j - 1] in ms[1..];
          var k :| 0 <= k < |ms| - 1 && ms[1..][k] == rest[j - 1];
          assert MatchIds(ms)[0] != MatchIds(ms)[k + 1];
        }
      }
    }
  }

  /** Every id named by a match of the list is a participant of the list. */
  lemma ReferencesKept(ms: seq<Match>, ps: seq<Participant>, ms': seq<Match>, ps': seq<Participant>, id: nat)
    requires MatchesReferToParticipants(ms, ps)
    requires forall m :: m in ms' <==> m in ms && m.giverId != id && m.receiverId != id
    requires forall p :: p in ps' <==> p in ps && p.id != id
    ensures MatchesReferToParticipants(ms', ps')
  {
    forall i | 0 <= i < |ms'|
      ensures IsParticipantId(ps', ms'[i].giverId) && IsParticipantId(ps', ms'[i].receiverId)
    {
      var m := ms'[i];
      assert m in ms;
      var k :| 0 <= k < |ms| && ms[k] == m;
      var g :| 0 <= g < |ps| && ps[g].id == m.giverId;
      var v :| 0 <= v < |ps| && ps[v].id == m.receiverId;
      assert ps[g] in ps';
      assert ps[v] in ps';
      var g' :| 0 <= g' < |ps'| && ps'[g'] == ps[g];
      var v' :| 0 <= v' < |ps'| && ps'[v'] == ps[v];
    }
  }

  /** Appending a participant with a fresh id, an unused email and an
      admissible name keeps the stored rows consistent. */
  lemma AppendParticipantConsistent(ps: seq<Participant>, ms: seq<Match>, ss: seq<Setting>, p: Participant)
    requires Consistent(ps, ms, ss)
    requires forall i :: 0 <= i < |ps| ==> ps[i].id < p.id
    requires !EmailTaken(ps, p.email) && NameFits(p)
    ensures Consistent(ps + [p], ms, ss)
  {
    var ps' := ps + [p];
    assert ParticipantIds(ps') == ParticipantIds(ps) + [p.id];
    forall i | 0 <= i < |ms|
      ensures IsParticipantId(ps', ms[i].giverId) && IsParticipantId(ps', ms[i].receiverId)
    {
      var g :| 0 <= g < |ps| && ps[g].id == ms[i].giverId;
      var v :| 0 <= v < |ps| && ps[v].id == ms[i].receiverId;
      assert ps'[g] == ps[g] && ps'[v] == ps[v];
    }
    forall i, j | 0 <= i < j < |ps'| ensures ps'[i].email != ps'[j].email {
      if j == |ps| {
        assert ps'[i] == ps[i];
      }
    }
  }

  /** Rewriting the flags of one match keeps the stored rows consistent. */
  lemma UpdateMatchConsistent(ps: seq<Participant>, ms: seq<Match>, ss: seq<Setting>, i: nat, m: Match)
    requires Consistent(ps, ms, ss)
    requires i < |ms| && m.id == ms[i].id && m.giverId == ms[i].giverId && m.receiverId == ms[i].receiverId
    ensures Consistent(ps, ms[i := m], ss)
  {
    var ms' := ms[i := m];
    assert MatchIds(ms') == MatchIds(ms);
    forall j | 0 <= j < |ms'|
      ensures IsParticipantId(ps, ms'[j].giverId) && IsParticipantId(ps, ms'[j].receiverId)
    {
      assert ms'[j].giverId == ms[j].giverId && ms'[j].receiverId == ms[j].receiverId;
    }
  }

  /** A batch of matches between participants, inserted into an empty match
      table, keeps the stored rows consistent. */
  lemma InsertedMatchesConsistent(ps: seq<Participant>, ss: seq<Setting>, pairs: seq<(nat, nat)>)
    requires Consistent(ps, [], ss)
    requires forall i :: 0 <= i < |pairs| ==> IsParticipantId(ps, pairs[i].0) && IsParticipantId(ps, pairs[i].1)
    ensures Consistent(ps, InsertedMatches(pairs), ss)
  {
    var ms := InsertedMatches(pairs);
    forall i, j | 0 <= i < j < |ms| ensures MatchIds(ms)[i] != MatchIds(ms)[j] {
    }
    forall i | 0 <= i < |ms|
      ensures IsParticipantId(ps, ms[i].giverId) && IsParticipantId(ps, ms[i].receiverId)
    {
      assert MatchPairs(ms)[i] == pairs[i];
    }
  }

  /** A pass of the send loop only sets flags, so the stored rows stay
      consistent. */
  lemma AfterSendConsistent(ps: seq<Participant>, ms: seq<Match>, ss: seq<Setting>, deliver: nat -> SendOutcome)
    requires Consistent(ps, ms, ss)
    ensures Consistent(ps, AfterSend(ms, deliver), ss)
  {
    var r := AfterSend(ms, deliver);
    forall j | 0 <= j < |r|
      ensures r[j].id == ms[j].id && r[j].giverId == ms[j].giverId && r[j].receiverId == ms[j].receiverId
    {
      AfterSendAt(ms, deliver, j);
    }
    assert MatchIds(r) == MatchIds(ms);
  }

  /** One more pair inserted is one more row, with the next rowid. */
  lemma InsertedMatchesSnoc(pairs: seq<(nat, nat)>, k: nat)
    requires k < |pairs|
    ensures InsertedMatches(pairs[..k + 1]) == InsertedMatches(pairs[..k]) + [NewMatch(k + 1, pairs[k].0, pairs[k].1)]
  {
    var a, b := InsertedMatches(pairs[..k + 1]), InsertedMatches(pairs[..k]) + [NewMatch(k + 1, pairs[k].0, pairs[k].1)];
    forall i | 0 <= i < |a| ensures a[i] == b[i] {
      assert pairs[..k + 1][i] == pairs[i];
    }
  }

  /** The matches the construction inserts for a shuffle of at least two
      participants are consistent with them, form one cycle through all of
      them, and put the event in the matching phase. */
  lemma CycleMatchesConsistent(ps: seq<Participant>, ss: seq<Setting>, order: seq<nat>)
    requires Consistent(ps, [], ss)
    requires multiset(order) == multiset(ParticipantIds(ps)) && |ps| >= 2
    ensures var ms := InsertedMatches(CyclePairs(order));
      && Consistent(ps, ms, ss)
      && SingleCycle(MatchPairs(ms), ParticipantIds(ps))
      && PhaseOf(ms) == Matching
  {
    var ids := ParticipantIds(ps);
    var pairs := CyclePairs(order);
    var ms := InsertedMatches(pairs);
    DistinctPermutation(ids, order);
    assert |order| == |multiset(order)| == |multiset(ids)| == |ps|;
    CycleIsSingle(order);
    SingleCycleOverPermutation(pairs, order, ids);
    forall i | 0 <= i < |pairs| ensures IsParticipantId(ps, pairs[i].0) && IsParticipantId(ps, pairs[i].1) {
      assert pairs[i].0 == Givers(pairs)[i] && pairs[i].1 == Receivers(pairs)[i];
      assert Givers(pairs)[i] in multiset(ids) && Receivers(pairs)[i] in multiset(ids);
      var g :| 0 <= g < |ids| && ids[g] == pairs[i].0;
      var v :| 0 <= v < |ids| && ids[v] == pairs[i].1;
    }
    InsertedMatchesConsistent(ps, ss, pairs);
    assert !ms[0].emailSent;
  }

  /** The loop of the send handler, over the matches in table order,
      skipping those already emailed: what it makes of the matches, its
      tallies and the notifications it hands to the transport. It needs only
      that every match names participants that exist. */
  method AttemptUnsent(ps: seq<Participant>, start: seq<Match>, deliver: nat -> SendOutcome)
    returns (ms: seq<Match>, sentCount: nat, errorCount: nat, firstError: Option<Failure>, notices: seq<MatchNotice>)
    requires MatchesReferToParticipants(start, ps)
    ensures ms == AfterSend(start, deliver)
    ensures notices == Notices(ps, start)
    ensures var n := CountUnsent(start);
      sentCount == CountDelivered(deliver, n) && errorCount == CountFailed(deliver, n)
      && firstError == FirstFailure(deliver, n)
  {
    notices := [];
    ms := [];
    sentCount, errorCount := 0, 0;
    firstError := None;
    var attempt := 0;
    for i := 0 to |start|
      invariant attempt == UnsentBefore(start, i)
      invariant ms == AfterSendUpTo(start, deliver, i)
      invariant sentCount == CountDelivered(deliver, attempt) && errorCount == CountFailed(deliver, attempt)
      invariant firstError == FirstFailure(deliver, attempt)
      invariant notices == NoticesUpTo(ps, start, i)
    {
      PassStep(ps, start, deliver, i);
      var m := start[i];
      if !m.emailSent {
        var giver := FindParticipant(ps, m.giverId).value;
        var receiver := FindParticipant(ps, m.receiverId).value;
        notices := notices + [MatchNotice(giver, receiver)];
        var outcome := deliver(attempt);
        TalliesStep(deliver, attempt);
        if outcome.Delivered? {
          m := m.(emailSent := true);
          sentCount := sentCount + 1;
        } else {
          errorCount := errorCount + 1;
          if firstError.None? {
            firstError := Some(Classify(outcome));
          }
        }
        attempt := attempt + 1;
      }
      ms := ms + [m];
    }
  }

  /** The shared store. Its fields are the three tables; every handler below
      reads the current rows and updates them in place. */
  class Store {
    var participants: seq<Participant>
    var matches: seq<Match>
    var settings: seq<Setting>

    ghost predicate Valid()
      reads this
    {
      Consistent(participants, matches, settings)
    }

    /** The empty database the application starts from. */
    constructor ()
      ensures Valid()
      ensures participants == [] && matches == [] && settings == []
    {
      participants, matches, settings := [], [], [];
    }

    /** Registration: the checks of `Admit` against the stored rows, and the
        insert of the row it admits. */
    method Register(name: string, email: string, giftPreference: string, validate: string -> Option<string>)
      returns (r: Result<nat, RegisterError>)
      requires Valid()
      modifies this
      ensures Valid()
      ensures matches == old(matches) && settings == old(settings)
      ensures var a := Admit(old(participants), old(matches), name, email, giftPreference, validate);
        && (a.Failure? ==> r == Failure(a.error) && participants == old(participants))
        && (a.Success? ==> r == Success(a.value.id) && participants == old(participants) + [a.value])
    {
      var a := Admit(participants, matches, name, email, giftPreference, validate);
      if a.Failure? {
        return Failure(a.error);
      }
      AdmitConsistent(participants, matches, settings, name, email, giftPreference, validate);
      participants := participants + [a.value];
      r := Success(a.value.id);
    }

    /** Match creation: refused once locked; otherwise every existing match
        is deleted first, and with at least two participants one match per
        participant is inserted along the single cycle of the shuffled order.
        The defensive self-pair check always passes, so the retry and its
        failure message are never reached. */
    method CreateMatches(order: seq<nat>) returns (r: Result<nat, AdminError>)
      requires Valid()
      requires multiset(order) == multiset(ParticipantIds(participants))
      modifies this
      ensures Valid()
      ensures participants == old(participants) && settings == old(settings)
      ensures AnySent(old(matches)) ==> r == Failure(EmailsAlreadySent) && matches == old(matches)
      ensures !AnySent(old(matches)) && |participants| < 2 ==>
        r == Failure(NotEnoughParticipants) && matches == [] && PhaseOf(matches) == Registration
      ensures !AnySent(old(matches)) && |participants| >= 2 ==>
        && r == Success(|participants|)
        && matches == InsertedMatches(CyclePairs(order))
        && SingleCycle(MatchPairs(matches), ParticipantIds(participants))
        && PhaseOf(matches) == Matching
    {
      if AnySent(matches) {
        return Failure(EmailsAlreadySent);
      }
      if |matches| > 0 {
        matches := [];
      }
      if |participants| < 2 {
        return Failure(NotEnoughParticipants);
      }
      var ids := ParticipantIds(participants);
      DistinctPermutation(ids, order);
      var pairs := BuildCycle(order);
      CycleHasNoSelfPair(order);
      var valid := NoSelfPairs(pairs);
      assert valid;
      CycleMatchesConsistent(participants, settings, order);
      var k := 0;
      while k < |pairs|
        invariant 0 <= k <= |pairs|
        invariant matches == InsertedMatches(pairs[..k])
        invariant participants == old(participants) && settings == old(settings)
      {
        NextRowIdAfterBatch(matches);
        InsertedMatchesSnoc(pairs, k);
        var id := NextRowId(MatchIds(matches));
        matches := matches + [NewMatch(id, pairs[k].0, pairs[k].1)];
        k := k + 1;
      }
      assert pairs[..k] == pairs;
      r := Success(|participants|);
    }

    /** Clearing: refused once locked; otherwise every match is deleted, even
        when there is none, and the count deleted is reported. */
    method ClearMatches() returns (r: Result<nat, AdminError>)
      requires Valid()
      modifies this
      ensures Valid()
      ensures participants == old(participants) && settings == old(settings)
      ensures AnySent(old(matches)) ==> r == Failure(EmailsAlreadySent) && matches == old(matches)
      ensures !AnySent(old(matches)) ==>
        r == Success(|old(matches)|) && matches == [] && PhaseOf(matches) == Registration
    {
      if AnySent(matches) {
        return Failure(EmailsAlreadySent);
      }
      var count := |matches|;
      matches := [];
      r := Success(count);
    }

    /** Sending: with no unsent match there is nothing to do; otherwise each
        unsent match gets one attempt, in order. A success marks that match
        sent at once, a failure leaves it pending, and the first failure's
        summary is kept for the report. */
    method SendEmails(deliver: nat -> SendOutcome) returns (summary: SendSummary, notices: seq<MatchNotice>)
      requires Valid()
      modifies this
      ensures Valid()
      ensures participants == old(participants) && settings == old(settings)
      ensures matches == AfterSend(old(matches), deliver)
      ensures notices == Notices(old(participants), old(matches))
      ensures CountUnsent(old(matches)) == 0 ==> summary == NothingToSend
      ensures CountUnsent(old(matches)) > 0 ==>
        var n := CountUnsent(old(matches));
        summary == Attempted(CountDelivered(deliver, n), CountFailed(deliver, n), SummaryOf(FirstFailure(deliver, n)))
    {
      if CountUnsent(matches) == 0 {
        CountUnsentZero(matches);
        AfterSendAllSent(matches, deliver);
        NoticesUpToCount(participants, matches, |matches|);
        return NothingToSend, [];
      }
      var sent, sentCount, errorCount, firstError;
      sent, sentCount, errorCount, firstError, notices := AttemptUnsent(participants, matches, deliver);
      AfterSendConsistent(participants, matches, settings, deliver);
      matches := sent;
      summary := Attempted(sentCount, errorCount, SummaryOf(firstError));
    }

    /** The reveal toggle: flips `revealed` on an existing match; a flip to
        revealed with no thank-you email yet attempts one, and only a
        successful attempt records it. */
    method ToggleReveal(matchId: nat, outcome: SendOutcome) returns (r: Result<bool, AdminError>, notice: Option<RevealNotice>)
      requires Valid()
      modifies this
      ensures Valid()
      ensures participants == old(participants) && settings == old(settings)
      ensures FindMatch(old(matches), matchId).None? ==>
        r == Failure(NotFound) && matches == old(matches) && notice == None
      ensures FindMatch(old(matches), matchId).Some? ==>
        var i := FindMatch(old(matches), matchId).value;
        var m := old(matches)[i];
        && matches == old(matches)[i := Toggled(m, outcome)]
        && r == Success(!m.revealed)
        && (notice.Some? <==> ToggleAttemptsSend(m))
        && (notice.Some? ==> notice.value == RevealNotice(FindParticipant(participants, m.receiverId).value,
                                                             FindParticipant(participants, m.giverId).value))
    {
      var found := FindMatch(matches, matchId);
      if found.None? {
        return Failure(NotFound), None;
      }
      var i := found.value;
      var m := matches[i];
      assert IsParticipantId(participants, m.giverId) && IsParticipantId(participants, m.receiverId);
      var wasRevealed := m.revealed;
      m := m.(revealed := !m.revealed);
      notice := None;
      if m.revealed && !wasRevealed && !m.thankYouEmailSent {
        var receiver := FindParticipant(participants, m.receiverId).value;
        var giver := FindParticipant(participants, m.giverId).value;
        notice := Some(RevealNotice(receiver, giver));
        if outcome.Delivered? {
          m := m.(thankYouEmailSent := true);
        }
      }
      assert m == Toggled(matches[i], outcome);
      UpdateMatchConsistent(participants, matches, settings, i, m);
      matches := matches[i := m];
      r := Success(m.revealed);
    }

    /** Participant deletion: an unknown id is refused before the lock is
        looked at; once locked nothing is deleted; otherwise the participant
        and every match naming them go, and nothing else changes. */
    method DeleteParticipant(participantId: nat) returns (r: Result<Participant, AdminError>)
      requires Valid()
      modifies this
      ensures Valid()
      ensures settings == old(settings)
      ensures !IsParticipantId(old(participants), participantId) ==>
        r == Failure(NotFound) && participants == old(participants) && matches == old(matches)
      ensures IsParticipantId(old(participants), participantId) && AnySent(old(matches)) ==>
        r == Failure(EmailsAlreadySent) && participants == old(participants) && matches == old(matches)
      ensures IsParticipantId(old(participants), participantId) && !AnySent(old(matches)) ==>
        && r == Success(FindParticipant(old(participants), participantId).value)
        && participants == WithoutParticipant(old(participants), participantId)
        && matches == WithoutMatchesOf(old(matches), participantId)
    {
      var found := FindParticipant(participants, participantId);
      if found.None? {
        return Failure(NotFound);
      }
      if AnySent(matches) {
        return Failure(EmailsAlreadySent);
      }
      ghost var ps, ms := participants, matches;
      matches := WithoutMatchesOf(matches, participantId);
      participants := WithoutParticipant(participants, participantId);
      ReferencesKept(ms, ps, matches, participants, participantId);
      r := Success(found.value);
    }

    /** The full reset: no guard; every table is emptied. */
    method ResetAll()
      requires Valid()
      modifies this
      ensures Valid()
      ensures participants == [] && matches == [] && settings == []
      ensures PhaseOf(matches) == Registration
    {
      matches := [];
      participants := [];
      settings := [];
    }
  }
}
