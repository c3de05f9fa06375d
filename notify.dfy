/** What the handlers hand to the mail transport and what they make of its
    answer: the two kinds of notification, the classified failure messages,
    and the reference definitions of the send loop and of a reveal toggle. */
module Notify {
  import opened Models
  import opened Sanitize
  import opened Phases

  /** How one SMTP attempt ends, by the exception class the handler catches:
      authentication errors, other SMTP errors, and anything else. */
  datatype SendOutcome = Delivered | AuthFailed | SmtpFailed(detail: string) | OtherFailed(detail: string)

  /** A participant's name as a notification carries it,
      `" ".join(name.split())`: one line whose words are the name's words,
      which by `NormalizeUnique` is the only such text. */
  function FlatName(p: Participant): (r: string)
    ensures IsNormalized(r) && Split(r) == Split(p.name)
    ensures NonSpaces(r) == NonSpaces(p.name)
  {
    NormalizeKeepsText(p.name);
    Normalize(p.name)
  }

  /** The giver's notification of whom they give to, sent to the giver's
      address, with the names and the preference flattened to single-line
      text. */
  datatype MatchNotice = MatchNotice(giver: Participant, receiver: Participant)
  {
    function GiverName(): string
    {
      FlatName(giver)
    }

    function ReceiverName(): string
    {
      FlatName(receiver)
    }

    function Preference(): (r: string)
      ensures IsNormalized(r)
      ensures (receiver.giftPreference.None? || receiver.giftPreference.value == "") ==> r == NoPreference
      ensures receiver.giftPreference.Some? && receiver.giftPreference.value != "" ==>
        Split(r) == Split(receiver.giftPreference.value) && NonSpaces(r) == NonSpaces(receiver.giftPreference.value)
    {
      PreferenceText(receiver.giftPreference)
    }
  }

  /** The receiver's notification of who their giver was, sent to the
      receiver's address with the giver's address for a thank-you. */
  datatype RevealNotice = RevealNotice(receiver: Participant, giver: Participant)
  {
    function ReceiverName(): string
    {
      FlatName(receiver)
    }

    function GiverName(): string
    {
      FlatName(giver)
    }
  }

  const NoPreference := "No preference specified"

  /** Python's `sub in s` on strings. */
  predicate Contains(s: string, sub: string)
  {
    if |sub| <= |s| && s[..|sub|] == sub then true
    else if s == [] then false
    else Contains(s[1..], sub)
  }

  /** `sub` occurs in `s` starting at position i. */
  predicate OccursAt(s: string, sub: string, i: nat)
  {
    i + |sub| <= |s| && s[i..i + |sub|] == sub
  }

  /** `Contains` holds exactly when the text occurs somewhere in the
      message. */
  lemma {:induction false} ContainsOccurs(s: string, sub: string)
    ensures Contains(s, sub) <==> exists i: nat :: OccursAt(s, sub, i)
    decreases |s|
  {
    if |sub| <= |s| && s[..|sub|] == sub {
      assert OccursAt(s, sub, 0);
    } else if s == [] {
      forall i: nat ensures !OccursAt(s, sub, i) {
      }
    } else {
      ContainsOccurs(s[1..], sub);
      if Contains(s[1..], sub) {
        var i: nat :| OccursAt(s[1..], sub, i);
        OccursShift(s, sub, i);
      }
      forall i: nat | OccursAt(s, sub, i) ensures Contains(s[1..], sub) {
        assert i != 0;
        OccursShift(s, sub, i - 1);
      }
    }
  }

  lemma OccursShift(s: string, sub: string, i: nat)
    requires s != []
    ensures OccursAt(s[1..], sub, i) <==> OccursAt(s, sub, i + 1)
  {
    if i + |sub| <= |s| - 1 {
      assert s[1..][i..i + |sub|] == s[i + 1..i + 1 + |sub|];
    }
  }

  /** The kinds of failure the send handler tells apart, in the order it
      tests for them. */
  datatype Failure =
    | AuthRejected
    | ConnectionRefused
    | ConnectionTimeout
    | SmtpError(detail: string)
    | UnknownHost
    | OtherError(detail: string)

  /** Which kind a failed attempt is, by the exception class caught and the
      text of its message. */
  function Classify(o: SendOutcome): (f: Failure)
    requires !o.Delivered?
    ensures f == AuthRejected <==> o.AuthFailed?
    ensures f == ConnectionRefused <==> o.SmtpFailed? && Contains(o.detail, "Connection refused")
    ensures f == ConnectionTimeout <==>
      o.SmtpFailed? && !Contains(o.detail, "Connection refused") && Contains(o.detail, "timed out")
    ensures f.SmtpError? <==>
      o.SmtpFailed? && !Contains(o.detail, "Connection refused") && !Contains(o.detail, "timed out")
    ensures f == UnknownHost <==> o.OtherFailed? && Contains(o.detail, "Name or service not known")
    ensures f.OtherError? <==> o.OtherFailed? && !Contains(o.detail, "Name or service not known")
    ensures (f.SmtpError? || f.OtherError?) ==> f.detail == o.detail
  {
    match o
    case AuthFailed => AuthRejected
    case SmtpFailed(d) =>
      if Contains(d, "Connection refused") then ConnectionRefused
      else if Contains(d, "timed out") then ConnectionTimeout
      else SmtpError(d)
    case OtherFailed(d) =>
      if Contains(d, "Name or service not known") then UnknownHost
      else OtherError(d)
  }

  /** The operator-facing summary of a failure. It is never empty, so once
      recorded it counts as set and is never overwritten. */
  function Summary(f: Failure): (msg: string)
    ensures msg != []
  {
    match f
    case AuthRejected => "SMTP authentication failed. Check SMTP_USERNAME and SMTP_PASSWORD in .env"
    case ConnectionRefused => "Connection refused. Check SMTP_SERVER and SMTP_PORT in .env"
    case ConnectionTimeout => "Connection timeout. Check network/firewall settings"
    case SmtpError(d) => "SMTP error: " + d
    case UnknownHost => "Cannot resolve SMTP server hostname. Check SMTP_SERVER in .env"
    case OtherError(d) => "Error: " + d
  }

  /** The summary text of the recorded failure, if any. */
  function SummaryOf(f: Option<Failure>): (r: Option<string>)
    ensures r.Some? <==> f.Some?
    ensures r.Some? ==> r.value != [] && r.value == Summary(f.value)
  {
    if f.Some? then Some(Summary(f.value)) else None
  }

  /** `receiver.gift_preference or "No preference specified"`, flattened: a
      missing or empty preference reads as the placeholder. */
  function PreferenceText(p: Option<string>): (t: string)
    ensures IsNormalized(t)
    ensures (p.None? || p.value == "") ==> t == NoPreference
    ensures p.Some? && p.value != "" ==> Split(t) == Split(p.value) && NonSpaces(t) == NonSpaces(p.value)
  {
    if p.None? || p.value == "" then
      PlaceholderIsFlat();
      Normalize(NoPreference)
    else
      NormalizeKeepsText(p.value);
      Normalize(p.value)
  }

  lemma PlaceholderIsFlat()
    ensures Normalize(NoPreference) == NoPreference
  {
    var ws := PlaceholderWords();
    SplitJoin(ws);
  }

  /** The placeholder is three words joined by single spaces. */
  lemma PlaceholderWords() returns (ws: seq<string>)
    ensures AllWords(ws) && Join(ws) == NoPreference
  {
    ws := ["No", "preference", "specified"];
    LettersAreWord("No");
    LettersAreWord("preference");
    LettersAreWord("specified");
    ThreeWords("No", "preference", "specified");
  }

  lemma ThreeWords(a: string, b: string, c: string)
    requires IsWord(a) && IsWord(b) && IsWord(c)
    ensures AllWords([a, b, c]) && Join([a, b, c]) == a + " " + b + " " + c
  {
    assert [a, b, c][1..] == [b, c];
    assert [b, c][1..] == [c];
    assert Join([b, c]) == b + " " + c;
    assert Join([a, b, c]) == a + " " + (b + " " + c);
  }

  /** A non-empty run of characters between 'A' and 'z', none of which is
      whitespace, is a word. */
  lemma LettersAreWord(w: string)
    requires w != [] && forall k :: 0 <= k < |w| ==> 'A' <= w[k] <= 'z'
    ensures IsWord(w)
  {
  }

  // ---------------------------------------------------------------------
  // The send loop, as reference functions over the matches and the outcomes
  // of the attempts (attempt k is the k-th match found unsent).

  /** How many of the first k matches have not been emailed; for an unsent
      match k this is the number of its attempt. */
  function UnsentBefore(ms: seq<Match>, k: nat): (n: nat)
    requires k <= |ms|
    ensures n <= k
  {
    if k == 0 then 0 else UnsentBefore(ms, k - 1) + (if ms[k - 1].emailSent then 0 else 1)
  }

  /** How many matches have not been emailed. */
  function CountUnsent(ms: seq<Match>): nat
  {
    UnsentBefore(ms, |ms|)
  }

  /** None of the first k matches is unsent exactly when all of them are
      emailed. */
  lemma {:induction false} UnsentBeforeZero(ms: seq<Match>, k: nat)
    requires k <= |ms|
    ensures UnsentBefore(ms, k) == 0 <==> forall i :: 0 <= i < k ==> ms[i].emailSent
  {
    if k > 0 {
      UnsentBeforeZero(ms, k - 1);
    }
  }

  /** No match is left unsent exactly when every match has been emailed. */
  lemma CountUnsentZero(ms: seq<Match>)
    ensures CountUnsent(ms) == 0 <==> forall i :: 0 <= i < |ms| ==> ms[i].emailSent
  {
    UnsentBeforeZero(ms, |ms|);
  }

  /** How many of the first n attempts were delivered. */
  function CountDelivered(deliver: nat -> SendOutcome, n: nat): nat
  {
    if n == 0 then 0 else CountDelivered(deliver, n - 1) + (if deliver(n - 1).Delivered? then 1 else 0)
  }

  /** How many of the first n attempts failed. */
  function CountFailed(deliver: nat -> SendOutcome, n: nat): nat
  {
    if n == 0 then 0 else CountFailed(deliver, n - 1) + (if deliver(n - 1).Delivered? then 0 else 1)
  }

  /** The kind of the first failure among the first n attempts, if any. */
  function FirstFailure(deliver: nat -> SendOutcome, n: nat): Option<Failure>
  {
    if n == 0 then None
    else
      var earlier := FirstFailure(deliver, n - 1);
      if earlier.Some? || deliver(n - 1).Delivered? then earlier
      else Some(Classify(deliver(n - 1)))
  }

  /** One match as the loop leaves it: an emailed match is skipped, an unsent
      one is marked sent exactly when its attempt was delivered. */
  function SendStep(m: Match, outcome: SendOutcome): (r: Match)
    ensures r.id == m.id && r.giverId == m.giverId && r.receiverId == m.receiverId
    ensures r.revealed == m.revealed && r.thankYouEmailSent == m.thankYouEmailSent
    ensures r.emailSent <==> m.emailSent || outcome.Delivered?
  {
    if m.emailSent then m else m.(emailSent := outcome.Delivered?)
  }

  /** The first k matches as the loop leaves them. */
  function AfterSendUpTo(ms: seq<Match>, deliver: nat -> SendOutcome, k: nat): (r: seq<Match>)
    requires k <= |ms|
    ensures |r| == k
  {
    if k == 0 then []
    else AfterSendUpTo(ms, deliver, k - 1) + [SendStep(ms[k - 1], deliver(UnsentBefore(ms, k - 1)))]
  }

  /** The matches after one pass of the loop. */
  function AfterSend(ms: seq<Match>, deliver: nat -> SendOutcome): (r: seq<Match>)
    ensures |r| == |ms|
  {
    AfterSendUpTo(ms, deliver, |ms|)
  }

  lemma {:induction false} AfterSendUpToAt(ms: seq<Match>, deliver: nat -> SendOutcome, k: nat, i: nat)
    requires i < k <= |ms|
    ensures AfterSendUpTo(ms, deliver, k)[i] == SendStep(ms[i], deliver(UnsentBefore(ms, i)))
  {
    if i < k - 1 {
      AfterSendUpToAt(ms, deliver, k - 1, i);
    }
  }

  /** Match i after the pass is match i meeting the attempt numbered by the
      unsent matches before it. */
  lemma AfterSendAt(ms: seq<Match>, deliver: nat -> SendOutcome, i: nat)
    requires i < |ms|
    ensures AfterSend(ms, deliver)[i] == SendStep(ms[i], deliver(UnsentBefore(ms, i)))
  {
    AfterSendUpToAt(ms, deliver, |ms|, i);
  }

  /** A pass over matches that are all emailed changes nothing. */
  lemma AfterSendAllSent(ms: seq<Match>, deliver: nat -> SendOutcome)
    requires forall i :: 0 <= i < |ms| ==> ms[i].emailSent
    ensures AfterSend(ms, deliver) == ms
  {
    forall i | 0 <= i < |ms| ensures AfterSend(ms, deliver)[i] == ms[i] {
      AfterSendAt(ms, deliver, i);
    }
  }

  /** The giver notifications the loop builds from the first k matches, one
      per unsent match, in order. */
  function NoticesUpTo(ps: seq<Participant>, ms: seq<Match>, k: nat): seq<MatchNotice>
    requires MatchesReferToParticipants(ms, ps) && k <= |ms|
  {
    if k == 0 then []
    else
      var m := ms[k - 1];
      var earlier := NoticesUpTo(ps, ms, k - 1);
      if m.emailSent then earlier
      else earlier + [MatchNotice(FindParticipant(ps, m.giverId).value, FindParticipant(ps, m.receiverId).value)]
  }

  /** The giver notifications of a whole pass. */
  function Notices(ps: seq<Participant>, ms: seq<Match>): seq<MatchNotice>
    requires MatchesReferToParticipants(ms, ps)
  {
    NoticesUpTo(ps, ms, |ms|)
  }

  /** One notification is built per attempt. */
  lemma {:induction false} NoticesUpToCount(ps: seq<Participant>, ms: seq<Match>, k: nat)
    requires MatchesReferToParticipants(ms, ps) && k <= |ms|
    ensures |NoticesUpTo(ps, ms, k)| == UnsentBefore(ms, k)
  {
    if k > 0 {
      NoticesUpToCount(ps, ms, k - 1);
      NoticesGrow(ps, ms, k - 1);
    }
  }

  /** Attempt number n of a pass carries the notification for the giver of
      the n-th unsent match, about that match's receiver. */
  lemma {:induction false} NoticesUpToAt(ps: seq<Participant>, ms: seq<Match>, k: nat, i: nat)
    requires MatchesReferToParticipants(ms, ps) && i < k <= |ms| && !ms[i].emailSent
    ensures UnsentBefore(ms, i) < |NoticesUpTo(ps, ms, k)|
    ensures NoticesUpTo(ps, ms, k)[UnsentBefore(ms, i)] ==
      MatchNotice(FindParticipant(ps, ms[i].giverId).value, FindParticipant(ps, ms[i].receiverId).value)
  {
    NoticesStep(ps, ms, k - 1);
    NoticesUpToCount(ps, ms, k - 1);
    if i < k - 1 {
      NoticesUpToAt(ps, ms, k - 1, i);
    }
  }

  lemma NoticesGrow(ps: seq<Participant>, ms: seq<Match>, i: nat)
    requires MatchesReferToParticipants(ms, ps) && i < |ms|
    ensures |NoticesUpTo(ps, ms, i + 1)| == |NoticesUpTo(ps, ms, i)| + (if ms[i].emailSent then 0 else 1)
  {
    NoticesStep(ps, ms, i);
  }

  lemma NoticesStep(ps: seq<Participant>, ms: seq<Match>, i: nat)
    requires MatchesReferToParticipants(ms, ps) && i < |ms|
    ensures NoticesUpTo(ps, ms, i + 1) ==
      if ms[i].emailSent then NoticesUpTo(ps, ms, i)
      else NoticesUpTo(ps, ms, i) + [MatchNotice(FindParticipant(ps, ms[i].giverId).value, FindParticipant(ps, ms[i].receiverId).value)]
  {
  }

  /** One match more: an emailed match adds nothing but itself; an unsent
      one takes the next attempt and adds its notification. */
  lemma PassStep(ps: seq<Participant>, ms: seq<Match>, deliver: nat -> SendOutcome, i: nat)
    requires MatchesReferToParticipants(ms, ps) && i < |ms|
    ensures UnsentBefore(ms, i + 1) == UnsentBefore(ms, i) + (if ms[i].emailSent then 0 else 1)
    ensures AfterSendUpTo(ms, deliver, i + 1) ==
      AfterSendUpTo(ms, deliver, i) + [SendStep(ms[i], deliver(UnsentBefore(ms, i)))]
    ensures NoticesUpTo(ps, ms, i + 1) ==
      if ms[i].emailSent then NoticesUpTo(ps, ms, i)
      else NoticesUpTo(ps, ms, i) + [MatchNotice(FindParticipant(ps, ms[i].giverId).value, FindParticipant(ps, ms[i].receiverId).value)]
  {
  }

  /** What one more attempt adds to the tallies. */
  lemma TalliesStep(deliver: nat -> SendOutcome, n: nat)
    ensures CountDelivered(deliver, n + 1) == CountDelivered(deliver, n) + (if deliver(n).Delivered? then 1 else 0)
    ensures CountFailed(deliver, n + 1) == CountFailed(deliver, n) + (if deliver(n).Delivered? then 0 else 1)
    ensures FirstFailure(deliver, n + 1) ==
      if FirstFailure(deliver, n).Some? || deliver(n).Delivered? then FirstFailure(deliver, n)
      else Some(Classify(deliver(n)))
  {
  }

  /** Every attempt is counted once: as sent or as failed. */
  lemma {:induction false} SentPlusFailed(deliver: nat -> SendOutcome, n: nat)
    ensures CountDelivered(deliver, n) + CountFailed(deliver, n) == n
  {
    if n > 0 {
      SentPlusFailed(deliver, n - 1);
    }
  }

  /** The recorded error is the summary of the earliest failed attempt, and
      there is one exactly when some attempt failed. */
  lemma {:induction false} FirstFailureIsEarliest(deliver: nat -> SendOutcome, n: nat)
    ensures FirstFailure(deliver, n).None? <==> forall k :: 0 <= k < n ==> deliver(k).Delivered?
    ensures forall k ::
      (0 <= k < n && !deliver(k).Delivered? && (forall j :: 0 <= j < k ==> deliver(j).Delivered?))
      ==> FirstFailure(deliver, n) == Some(Classify(deliver(k)))
  {
    if n > 0 {
      FirstFailureIsEarliest(deliver, n - 1);
    }
  }

  lemma AnySentSnoc(ms: seq<Match>, m: Match)
    ensures AnySent(ms + [m]) <==> AnySent(ms) || m.emailSent
  {
    if AnySent(ms) {
      var i :| 0 <= i < |ms| && ms[i].emailSent;
      assert (ms + [m])[i] == ms[i];
    }
    assert (ms + [m])[|ms|] == m;
  }

  lemma {:induction false} AfterSendUpToLocks(ms: seq<Match>, deliver: nat -> SendOutcome, k: nat)
    requires k <= |ms|
    ensures AnySent(AfterSendUpTo(ms, deliver, k)) <==>
      AnySent(ms[..k]) || CountDelivered(deliver, UnsentBefore(ms, k)) > 0
  {
    if k > 0 {
      AfterSendUpToLocks(ms, deliver, k - 1);
      var u := UnsentBefore(ms, k - 1);
      AnySentSnoc(AfterSendUpTo(ms, deliver, k - 1), SendStep(ms[k - 1], deliver(u)));
      assert ms[..k] == ms[..k - 1] + [ms[k - 1]];
      AnySentSnoc(ms[..k - 1], ms[k - 1]);
      TalliesStep(deliver, u);
    }
  }

  /** Sending locks the event exactly when it was locked before or some
      attempt of this pass succeeded. */
  lemma AfterSendLocks(ms: seq<Match>, deliver: nat -> SendOutcome)
    ensures AnySent(AfterSend(ms, deliver)) <==> AnySent(ms) || CountDelivered(deliver, CountUnsent(ms)) > 0
  {
    AfterSendUpToLocks(ms, deliver, |ms|);
    assert ms[..|ms|] == ms;
  }

  /** Counting the unsent among the first k matches of any sequence r that
      agrees with the pass on those matches' flags. */
  lemma {:induction false} UnsentAfterPass(ms: seq<Match>, r: seq<Match>, deliver: nat -> SendOutcome, k: nat)
    requires k <= |ms| && k <= |r|
    requires forall i {:trigger r[i]} :: 0 <= i < k ==> r[i].emailSent == (ms[i].emailSent || deliver(UnsentBefore(ms, i)).Delivered?)
    ensures UnsentBefore(r, k) == CountFailed(deliver, UnsentBefore(ms, k))
  {
    if k > 0 {
      UnsentAfterPass(ms, r, deliver, k - 1);
      var u := UnsentBefore(ms, k - 1);
      var f := CountFailed(deliver, u);
      assert UnsentBefore(r, k - 1) == f;
      if ms[k - 1].emailSent {
        assert UnsentBefore(ms, k) == u;
        assert UnsentBefore(r, k) == f;
      } else {
        assert UnsentBefore(ms, k) == u + 1;
        TalliesStep(deliver, u);
        assert r[k - 1].emailSent == deliver(u).Delivered?;
      }
    }
  }

  /** The matches still unsent after a pass are exactly the failed attempts:
      they stay eligible for the next pass. */
  lemma AfterSendLeavesFailures(ms: seq<Match>, deliver: nat -> SendOutcome)
    ensures CountUnsent(AfterSend(ms, deliver)) == CountFailed(deliver, CountUnsent(ms))
  {
    var r := AfterSend(ms, deliver);
    forall i | 0 <= i < |ms|
      ensures r[i].emailSent == (ms[i].emailSent || deliver(UnsentBefore(ms, i)).Delivered?)
    {
      AfterSendAt(ms, deliver, i);
    }
    UnsentAfterPass(ms, r, deliver, |ms|);
  }

  // ---------------------------------------------------------------------
  // Toggling a reveal.

  /** A toggle attempts the reveal email only when it flips the match from
      hidden to revealed and no thank-you email has gone out yet. */
  predicate ToggleAttemptsSend(m: Match)
  {
    !m.revealed && !m.thankYouEmailSent
  }

  /** The match after a toggle whose send attempt, if any, ended as given.
      The flip always happens; the thank-you flag turns true only on success. */
  function Toggled(m: Match, outcome: SendOutcome): (r: Match)
    ensures r.revealed == !m.revealed
    ensures r.thankYouEmailSent <==> m.thankYouEmailSent || (ToggleAttemptsSend(m) && outcome.Delivered?)
    ensures r.id == m.id && r.giverId == m.giverId && r.receiverId == m.receiverId && r.emailSent == m.emailSent
  {
    var flipped := m.(revealed := !m.revealed);
    if flipped.revealed && !m.revealed && !flipped.thankYouEmailSent && outcome.Delivered? then
      flipped.(thankYouEmailSent := true)
    else flipped
  }

  /** After a successful reveal email, toggling off and on again never
      attempts another one, whatever the transport would answer. */
  lemma RevealSentOnce(m: Match, o1: SendOutcome, o2: SendOutcome)
    requires ToggleAttemptsSend(m)
    ensures var on := Toggled(m, Delivered);
      var off := Toggled(on, o1);
      && on.revealed && on.thankYouEmailSent
      && !ToggleAttemptsSend(on) && !ToggleAttemptsSend(off)
      && Toggled(off, o2).revealed && Toggled(off, o2).thankYouEmailSent
  {
  }

  /** A failed reveal email leaves the match revealed and eligible: the next
      toggle to revealed tries again. */
  lemma RevealRetriedAfterFailure(m: Match, failure: SendOutcome, o: SendOutcome)
    requires ToggleAttemptsSend(m) && !failure.Delivered?
    ensures var on := Toggled(m, failure);
      var off := Toggled(on, o);
      && on.revealed && !on.thankYouEmailSent
      && !ToggleAttemptsSend(on) && ToggleAttemptsSend(off)
  {
  }
}
