# Polls views, modelled in Dafny

This project models the view layer of a small polls application: the index
listing of the latest published questions, the detail and results pages of one
question, and casting a vote for one of a question's choices. The
object-relational layer is replaced by an explicit in-memory store:

- `models.dfy` (module `Models`): the two tables as values. A `Question` has a
  primary key, its text and an integer publication timestamp. A `Choice` has a
  primary key, the key of its question, its text and a `nat` vote counter. The
  module also defines the store invariants: unique question keys, a choice table
  keyed by each row's own key, and every choice owned by an existing question.
  The models file of the application is not part of this model. Only the fields
  that the views use are modelled.
- `views.dfy` (module `Views`): the four rules. The three read-only rules are
  functions over the question sequence, with the current time passed as a
  parameter. A request's outcome is the `Response` datatype: `NotFound`,
  `Page(question)` for a rendered detail or results page,
  `ValidationError(question, message)` for the detail page re-rendered with an
  error, and `Redirect(questionId)` to the results page. The vote is `VoteStep`,
  a function from the old store to the response and the new choice table. It is
  also `Store.Vote`, a method on a `Store` class whose choice table is updated
  in place and which is proved equal to `VoteStep` on the old state.
- `wrappers.dfy` (module `Wrappers`): `Option`, used for the optional `choice`
  form field and for lookups that may find nothing.

The index ordering among questions with equal publication times is left open
by the source. Among equal publication times the model keeps store order. No
contract of `Index` depends on that choice.

The vote rule and the choice lookup assume a choice table keyed by primary key
(`KeyedById`), which every database table satisfies and which `Store.Valid`
includes.

## Model

| member | source | states |
|---|---|---|
| `Views.PublishedOnly` | polls/views.py:29 | exactly the store's questions with `pub_date <= now` are kept: each published question as often as it is stored, every other one never |
| `Views.SortNewestFirst` | polls/views.py:40 | `order_by("-pub_date")`: the result is a permutation of the input whose publication times never increase |
| `Views.Insert` | polls/views.py:40 | inserting one question into a newest-first sequence keeps it newest first and adds exactly that question |
| `Views.NewestFirstPrefix` | polls/views.py:40 | the `[:5]` slice of a newest-first sequence is newest first, and every question it cuts off is not newer than any it keeps |
| `Views.Index` | polls/views.py:38-40 | only published questions appear, so a future question never does; the length is min(5, number published); all published questions appear when there are at most 5; ordered newest first; every published question left out is not newer than any listed one |
| `Views.FindQuestion` | polls/views.py:52 | lookup by primary key: finds a question with that key, and finds nothing exactly when no question has it |
| `Views.Detail` | polls/views.py:27-29 | the page of a published question with the requested key; `NotFound` exactly when every question with that key is unpublished or none exists |
| `Views.Results` | polls/views.py:43-47 | the page of a question with the requested key, published or not; `NotFound` exactly when no question has that key |
| `Views.UnpublishedHiddenFromDetailOnly` | polls/views.py:27-47 | for a question with `pub_date > now`, detail is `NotFound` while results shows that same question |
| `Views.DetailAgreesWithResults` | polls/views.py:27-47 | whenever detail finds a question, results finds the same one |
| `Views.SelectChoice` | polls/views.py:54-58 | `choice_set.get(pk=...)`: a found choice is a row of the table whose own primary key is the submitted one and whose question is this question; nothing is found exactly when the field is absent or no row has both that key and this question |
| `Views.BelongsIffOwnRow` | polls/views.py:56-58 | the key-based acceptance test used by the vote rule holds exactly when some row of the choice table has the submitted primary key and belongs to the question |
| `Views.VoteStep` | polls/views.py:50-71 | unknown question: `NotFound`, nothing changes; missing or foreign choice: `ValidationError` with "You didn't select a choice." and the question, nothing changes; otherwise `Redirect` to that question, and that one choice gets exactly one more vote while every other row stays the same; no counter ever decreases |
| `Views.VoteIgnoresPublication` | polls/views.py:50-52 | a valid vote on a question that detail hides as unpublished still counts and redirects, because the vote has no publication check |
| `Views.RepeatedVotesAddUp` | polls/views.py:69-70 | n successive valid votes for one choice raise its counter by exactly n and leave every other row unchanged |
| `Views.Store.Vote` | polls/views.py:50-71 | the in-place vote: the response and the new choice table are those of `VoteStep` on the old store; questions are unchanged and the store invariant is kept |

## Left out

- Logging of the question, the user's choice and a missing choice: output only, no effect on state or outcome.
- Template rendering, URL reversal and the HTTP response objects: modelled as the `Response` datatype.
- Request and user objects: the submitted form field is the parameter `choice: Option<int>`.
- `timezone.now()` and time zones: the current time is the integer parameter `now`.
- Non-numeric `choice` values: these raise a conversion error that the view does not catch, so they are outside the field type.
- Store.Vote: the increment is one sequential update. The atomicity of the database-side `votes + 1` under concurrent requests is not modelled. `RepeatedVotesAddUp` covers only votes applied one after another.
- Duplicate primary keys: a lookup that matches several rows raises an error in the framework. The store invariant excludes duplicates, and the lookup functions return the first match.
- Generic list/detail view machinery, ORM internals, project settings and the WSGI bootstrap: configuration and plumbing with no application logic.
