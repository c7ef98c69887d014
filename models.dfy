/** The two tables of the polls application, as plain values.  A question's
    publication time is an integer timestamp; vote counters are natural
    numbers, so "never negative" holds by construction. */
module Models {

  datatype Question = Question(id: int, text: string, pubDate: int)

  datatype Choice = Choice(id: int, questionId: int, text: string, votes: nat)

  /** A question is published once its publication time is not in the future. */
  predicate Published(q: Question, now: int)
  {
    q.pubDate <= now
  }

  /** Primary keys of the question table are unique. */
  ghost predicate UniqueIds(qs: seq<Question>)
  {
    forall i, j :: 0 <= i < j < |qs| ==> qs[i].id != qs[j].id
  }

  /** The choice table is keyed by each row's own primary key. */
  ghost predicate KeyedById(cs: map<int, Choice>)
  {
    forall k :: k in cs ==> cs[k].id == k
  }

  /** Every choice belongs to a question that exists. */
  ghost predicate Owned(qs: seq<Question>, cs: map<int, Choice>)
  {
    forall k :: k in cs ==> exists q :: q in qs && q.id == cs[k].questionId
  }

  /** With unique primary keys, a key names at most one question. */
  lemma SameIdSameQuestion(qs: seq<Question>, a: Question, b: Question)
    requires UniqueIds(qs)
    requires a in qs && b in qs && a.id == b.id
    ensures a == b
  {
    var i :| 0 <= i < |qs| && qs[i] == a;
    var j :| 0 <= j < |qs| && qs[j] == b;
    assert qs[i].id == qs[j].id;
  }
}
