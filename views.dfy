/** The four rules of the polls view layer: the index listing, the detail and
    results lookups, and casting a vote.  The object-relational layer is
    replaced by an explicit store: the question table is a sequence, the
    choice table a map from primary key to row, and the current time is a
    parameter. */
module Views {
  import opened Wrappers
  import opened Models

  /** How many questions the index lists. */
  const LatestCount: nat := 5

  /** The message shown when a vote names no choice of the question. */
  const NoChoiceMessage: string := "You didn't select a choice."

  /** What a request produces: a not-found response, a page rendered for one
      question (detail or results), the detail page re-rendered with an error
      message, or a redirect to the results page of a question. */
  datatype Response =
    | NotFound
    | Page(question: Question)
    | ValidationError(question: Question, message: string)
    | Redirect(questionId: int)

  // ---------------------------------------------------------------------
  // Queries
  // ---------------------------------------------------------------------

  /** The questions whose publication time is not in the future, in store
      order (the filter on pub_date <= now). */
  function PublishedOnly(qs: seq<Question>, now: int): (r: seq<Question>)
    ensures forall q :: q in r <==> q in qs && Published(q, now)
    // each published question kept exactly as often as it is stored, no other kept
    ensures forall q :: multiset(r)[q] == if Published(q, now) then multiset(qs)[q] else 0
    ensures |r| <= |qs|
  {
    if qs == [] then []
    else if Published(qs[0], now) then
      assert qs == [qs[0]] + qs[1..];
      [qs[0]] + PublishedOnly(qs[1..], now)
    else
      assert qs == [qs[0]] + qs[1..];
      PublishedOnly(qs[1..], now)
  }

  /** Ordered most recent first: publication times never increase. */
  ghost predicate NewestFirst(s: seq<Question>)
  {
    forall i, j :: 0 <= i < j < |s| ==> s[j].pubDate <= s[i].pubDate
  }

  /** Places q into a newest-first sequence, before the first question that
      is not more recent than q. */
  function Insert(q: Question, s: seq<Question>): (r: seq<Question>)
    requires NewestFirst(s)
    ensures NewestFirst(r)
    ensures multiset(r) == multiset(s) + multiset{q}
  {
    if s == [] || s[0].pubDate <= q.pubDate then [q] + s
    else
      var rest := Insert(q, s[1..]);
      assert s == [s[0]] + s[1..];
      NotNewerThanHead(s, q, rest);
      [s[0]] + rest
  }

  /** Every question drawn from the tail of a newest-first sequence, or older
      than its head, is not newer than the head. */
  lemma NotNewerThanHead(s: seq<Question>, q: Question, rest: seq<Question>)
    requires NewestFirst(s) && s != [] && q.pubDate < s[0].pubDate
    requires multiset(rest) == multiset(s[1..]) + multiset{q}
    ensures forall k :: 0 <= k < |rest| ==> rest[k].pubDate <= s[0].pubDate
  {
    forall k | 0 <= k < |rest| ensures rest[k].pubDate <= s[0].pubDate {
      assert rest[k] in multiset(rest);
      if rest[k] != q {
        assert rest[k] in s[1..];
        var m :| 0 <= m < |s[1..]| && s[1..][m] == rest[k];
        assert s[m + 1] == rest[k];
      }
    }
  }

  /** The order_by("-pub_date") of the index: a newest-first rearrangement. */
  function SortNewestFirst(s: seq<Question>): (r: seq<Question>)
    ensures NewestFirst(r)
    ensures multiset(r) == multiset(s)
  {
    if s == [] then []
    else
      assert s == [s[0]] + s[1..];
      Insert(s[0], SortNewestFirst(s[1..]))
  }

  /** Index listing: the published questions, most recent first, cut to the
      first LatestCount. */
  function Index(qs: seq<Question>, now: int): (r: seq<Question>)
    // only published questions of the store appear
    ensures forall q :: q in r ==> q in qs && Published(q, now)
    // no question appears more often than it is published
    ensures multiset(r) <= multiset(PublishedOnly(qs, now))
    // at most LatestCount, and all of them when there are no more
    ensures |r| == if |PublishedOnly(qs, now)| <= LatestCount then |PublishedOnly(qs, now)| else LatestCount
    ensures |PublishedOnly(qs, now)| <= LatestCount ==> forall q :: q in qs && Published(q, now) ==> q in r
    ensures NewestFirst(r)
    // the most recent ones: a published question left out is not newer than any listed one
    ensures forall q, p :: q in qs && Published(q, now) && q !in r && p in r ==> q.pubDate <= p.pubDate
  {
    var published := PublishedOnly(qs, now);
    var sorted := SortNewestFirst(published);
    var r := if |sorted| <= LatestCount then sorted else sorted[..LatestCount];
    NewestFirstPrefix(sorted, r);
    assert forall q :: q in published <==> q in sorted by {
      forall q ensures q in published <==> q in sorted {
        assert q in published <==> q in multiset(published);
      }
    }
    r
  }

  /** A prefix r of a newest-first sequence is itself newest first, is a
      sub-multiset of it, and every question of the sequence left out of r is
      not newer than any question of r. */
  lemma NewestFirstPrefix(sorted: seq<Question>, r: seq<Question>)
    requires NewestFirst(sorted)
    requires r <= sorted
    ensures NewestFirst(r)
    ensures multiset(r) <= multiset(sorted)
    ensures forall q :: q in r ==> q in sorted
    ensures forall q, p :: q in sorted && q !in r && p in r ==> q.pubDate <= p.pubDate
  {
    var rest := sorted[|r|..];
    assert sorted == r + rest;
    forall q, p | q in sorted && q !in r && p in r ensures q.pubDate <= p.pubDate {
      assert q in rest;
      var j :| 0 <= j < |rest| && rest[j] == q;
      var i :| 0 <= i < |r| && r[i] == p;
      assert sorted[|r| + j] == q && sorted[i] == p;
    }
  }

  /** The first question whose primary key is id (get by pk). */
  function FindQuestion(qs: seq<Question>, id: int): (r: Option<Question>)
    ensures r.Some? ==> r.value in qs && r.value.id == id
    ensures r.None? <==> forall q :: q in qs ==> q.id != id
  {
    if qs == [] then None
    else if qs[0].id == id then Some(qs[0])
    else
      assert qs == [qs[0]] + qs[1..];
      FindQuestion(qs[1..], id)
  }

  /** Detail lookup: the question with primary key id among the published
      ones, or NotFound. */
  function Detail(qs: seq<Question>, now: int, id: int): (r: Response)
    ensures r.NotFound? || r.Page?
    ensures r.Page? ==> r.question in qs && r.question.id == id && Published(r.question, now)
    ensures r.NotFound? <==> forall q :: q in qs && q.id == id ==> !Published(q, now)
  {
    match FindQuestion(PublishedOnly(qs, now), id)
    case None => NotFound
    case Some(q) => Page(q)
  }

  /** Results lookup: the question with primary key id whatever its
      publication time, or NotFound. */
  function Results(qs: seq<Question>, id: int): (r: Response)
    ensures r.NotFound? || r.Page?
    ensures r.Page? ==> r.question in qs && r.question.id == id
    ensures r.NotFound? <==> forall q :: q in qs ==> q.id != id
  {
    match FindQuestion(qs, id)
    case None => NotFound
    case Some(q) => Page(q)
  }

  /** A question not yet published is hidden by the detail lookup but shown
      by the results lookup. */
  lemma UnpublishedHiddenFromDetailOnly(qs: seq<Question>, now: int, q: Question)
    requires UniqueIds(qs)
    requires q in qs && !Published(q, now)
    ensures Detail(qs, now, q.id) == NotFound
    ensures Results(qs, q.id) == Page(q)
  {
    forall p | p in qs && p.id == q.id ensures !Published(p, now) {
      SameIdSameQuestion(qs, p, q);
    }
    SameIdSameQuestion(qs, Results(qs, q.id).question, q);
  }

  /** Whenever the detail lookup finds a question, the results lookup finds
      the same one. */
  lemma DetailAgreesWithResults(qs: seq<Question>, now: int, id: int)
    requires UniqueIds(qs)
    requires Detail(qs, now, id).Page?
    ensures Results(qs, id) == Detail(qs, now, id)
  {
    SameIdSameQuestion(qs, Results(qs, id).question, Detail(qs, now, id).question);
  }

  // ---------------------------------------------------------------------
  // Voting
  // ---------------------------------------------------------------------

  /** The submitted field is present and names a choice of question
      questionId. */
  predicate Belongs(cs: map<int, Choice>, choice: Option<int>, questionId: int)
  {
    choice.Some? && choice.value in cs && cs[choice.value].questionId == questionId
  }

  /** The choice the submitted field names among the question's own choices
      (choice_set.get(pk=...)); None when the field is absent, names no row,
      or names a choice of another question. */
  function SelectChoice(cs: map<int, Choice>, question: Question, choice: Option<int>): (r: Option<Choice>)
    requires KeyedById(cs)
    // a found row is stored under its own key, which is the submitted one, and belongs to the question
    ensures r.Some? ==>
              r.value.id in cs && cs[r.value.id] == r.value &&
              Some(r.value.id) == choice && r.value.questionId == question.id
    // nothing is found exactly when no row of the table has both that key and that question
    ensures r.None? <==> forall k :: k in cs ==> Some(cs[k].id) != choice || cs[k].questionId != question.id
  {
    match choice
    case None => None
    case Some(pk) =>
      if pk in cs && cs[pk].questionId == question.id then Some(cs[pk]) else None
  }

  /** Under unique primary keys, the key-based test of the vote rule means
      that some row of the table has the submitted key and belongs to the
      question. */
  lemma BelongsIffOwnRow(cs: map<int, Choice>, choice: Option<int>, questionId: int)
    requires KeyedById(cs)
    ensures Belongs(cs, choice, questionId) <==>
              exists k :: k in cs && Some(cs[k].id) == choice && cs[k].questionId == questionId
  {
    if Belongs(cs, choice, questionId) {
      var pk := choice.value;
      assert cs[pk].id == pk;
      assert Some(cs[pk].id) == choice;
    }
  }

  /** The outcome of a vote and the choice table after it. */
  datatype VoteEffect = VoteEffect(response: Response, choices: map<int, Choice>)

  /** The vote rule on values: resolve the question (no publication check),
      then the choice; either report the missing selection and change nothing,
      or add one vote to the selected choice and redirect to the results. */
  function VoteStep(qs: seq<Question>, cs: map<int, Choice>, questionId: int, choice: Option<int>): (e: VoteEffect)
    requires KeyedById(cs)
    ensures !e.response.Page?
    // an unknown question is NotFound and changes nothing
    ensures e.response.NotFound? <==> forall q :: q in qs ==> q.id != questionId
    ensures e.response.NotFound? ==> e.choices == cs
    // a missing or foreign choice re-renders the detail page and changes nothing
    ensures e.response.ValidationError? <==> !e.response.NotFound? && !Belongs(cs, choice, questionId)
    ensures e.response.ValidationError? ==>
              e.choices == cs && e.response.message == NoChoiceMessage &&
              e.response.question in qs && e.response.question.id == questionId
    // a choice of this question gets exactly one more vote, nothing else changes
    ensures e.response.Redirect? <==> !e.response.NotFound? && Belongs(cs, choice, questionId)
    ensures e.response.Redirect? ==>
              e.response.questionId == questionId &&
              e.choices == cs[choice.value := cs[choice.value].(votes := cs[choice.value].votes + 1)]
    // counters never decrease and the table keeps its rows and keys
    ensures e.choices.Keys == cs.Keys && KeyedById(e.choices)
    ensures forall k :: k in cs ==> e.choices[k].votes >= cs[k].votes
  {
    match FindQuestion(qs, questionId)
    case None => VoteEffect(NotFound, cs)
    case Some(question) =>
      match SelectChoice(cs, question, choice)
      case None => VoteEffect(ValidationError(question, NoChoiceMessage), cs)
      case Some(selected) =>
        VoteEffect(Redirect(question.id), cs[choice.value := selected.(votes := selected.votes + 1)])
  }

  /** The vote applies no publication check: a valid vote on a question that
      the detail lookup hides still counts and redirects. */
  lemma VoteIgnoresPublication(qs: seq<Question>, cs: map<int, Choice>, now: int, q: Question, pk: int)
    requires UniqueIds(qs)
    requires KeyedById(cs)
    requires q in qs && !Published(q, now)
    requires pk in cs && cs[pk].questionId == q.id
    ensures Detail(qs, now, q.id) == NotFound
    ensures VoteStep(qs, cs, q.id, Some(pk)).response == Redirect(q.id)
    ensures VoteStep(qs, cs, q.id, Some(pk)).choices[pk].votes == cs[pk].votes + 1
  {
    UnpublishedHiddenFromDetailOnly(qs, now, q);
  }

  /** The choice table after the same vote is cast n times in a row. */
  function VoteRepeatedly(qs: seq<Question>, cs: map<int, Choice>, questionId: int, choice: Option<int>, n: nat): map<int, Choice>
    requires KeyedById(cs)
    decreases n
  {
    if n == 0 then cs
    else VoteRepeatedly(qs, VoteStep(qs, cs, questionId, choice).choices, questionId, choice, n - 1)
  }

  /** n successive valid votes for one choice raise its counter by exactly n
      and leave every other row as it was: no vote is lost. */
  lemma {:induction false} RepeatedVotesAddUp(qs: seq<Question>, cs: map<int, Choice>, questionId: int, pk: int, n: nat)
    requires KeyedById(cs)
    requires exists q :: q in qs && q.id == questionId
    requires pk in cs && cs[pk].questionId == questionId
    ensures var after := VoteRepeatedly(qs, cs, questionId, Some(pk), n);
            after.Keys == cs.Keys && after[pk] == cs[pk].(votes := cs[pk].votes + n) &&
            forall k :: k in cs && k != pk ==> after[k] == cs[k]
    decreases n
  {
    if n > 0 {
      var once := VoteStep(qs, cs, questionId, Some(pk));
      assert once.response.Redirect?;
      RepeatedVotesAddUp(qs, once.choices, questionId, pk, n - 1);
    }
  }

  // ---------------------------------------------------------------------
  // The store
  // ---------------------------------------------------------------------

  /** The two tables, updated in place by votes. */
  class Store {
    var questions: seq<Question>
    var choices: map<int, Choice>

    /** Primary keys are unique and every choice belongs to a question. */
    ghost predicate Valid()
      reads this
    {
      UniqueIds(questions) && KeyedById(choices) && Owned(questions, choices)
    }

    constructor (qs: seq<Question>, cs: map<int, Choice>)
      requires UniqueIds(qs) && KeyedById(cs) && Owned(qs, cs)
      ensures Valid()
      ensures questions == qs && choices == cs
    {
      questions := qs;
      choices := cs;
    }

    /** Casts a vote for the submitted choice of question questionId. */
    method Vote(questionId: int, choice: Option<int>) returns (r: Response)
      requires Valid()
      modifies this
      ensures Valid()
      ensures questions == old(questions)
      ensures VoteEffect(r, choices) == VoteStep(old(questions), old(choices), questionId, choice)
    {
      var found := FindQuestion(questions, questionId);
      if found.None? {
        return NotFound;
      }
      var question := found.value;
      var selected := SelectChoice(choices, question, choice);
      if selected.None? {
        return ValidationError(question, NoChoiceMessage);
      }
      var c := selected.value;
      choices := choices[c.id := c.(votes := c.votes + 1)];
      r := Redirect(question.id);
    }
  }
}
