# Request-approval workflow: a Dafny model of its core

The system routes user requests through departments. A user creates a request
as a draft, edits it, deletes it while it is still a draft, and submits it to
Department A. Department A is the single department flagged
`is_department_a`. From there the request goes through a workflow path, which
is an ordered list of department steps. At the end it is approved, rejected or
completed.

This project models that core as pure functions over immutable values:

- `Results`: `Option`, the typed `Error`s (not found, validation failed,
  missing Department A, duplicate key, missing parent row, row
  still referenced, value out of range), `Result`, and the `required` rule.
- `Requests`: the `requests` row with its seven-value status enum, its
  nullable references and timestamps and its soft-delete marker. It also holds
  the department lookup and the transition-log record.
- `RequestStore`: the `requests` table keyed by id, the transition log, the
  owner-scoped `firstOrFail` query, and the cascade when an owner is deleted.
- `RequestController`: the owner-scoped actions `index`, `store`, `update`,
  `destroy` and `submit`. Each returns the new store or an error, and an error
  changes nothing.
- `PathSteps`: the `workflow_path_steps` table, `getNextStep`,
  `getPreviousStep`, and a path's steps ordered by `step_order`.
- `Evaluations`: the `request_evaluations` rows, the range of `score`, the
  three foreign keys with their delete cascades, and the unique
  (request, question) index.
- `Workflow`: the Department A and department routing actions. Their
  controllers are not part of this model. Each action is described only by
  what the workflow feature tests assert about the request afterwards. Scenario
  lemmas chain these actions with the owner-scoped ones.

The clock is an input: every operation that stamps `now()` takes a
`Timestamp`.

Points where the code does less, or other, than its names and comments
suggest; the model follows the code:

- `submit` sets department, status and submission time only. It leaves
  `current_user_id` and `workflow_path_id` as they were.
- `submit` always logs `from_status` as `draft`, even when it resubmits a
  request that was sent back for details.
- The row update and the log insert in `submit` are two separate writes, not
  one transaction.
- `current_user_id` has no delete action, so a user cannot be deleted while
  another user's request still names them as its assignee. Their own
  requests go with them in cascade.
- The evaluation `score` column is a signed 32-bit integer. Its comment speaks
  of a score out of 100, but nothing narrows it to 0..100.

## Model

| member | source | states |
|---|---|---|
| Requests.ParseStatus | database/migrations/2025_11_20_195509_create_requests_table.php:22 | a stored status string reads back as a status exactly when it is one of the seven enum names, and it reads back as the status with that name |
| Requests.StatusRoundTrip | database/migrations/2025_11_20_195509_create_requests_table.php:22 | every status survives being written to and read from the enum column, and distinct statuses have distinct names |
| Requests.AllStatusesExhaustive | database/migrations/2025_11_20_195509_create_requests_table.php:22 | status ranges over exactly draft, pending, in_review, need_more_details, approved, rejected and completed |
| Requests.DepartmentAIndex | app/Http/Controllers/API/RequestController.php:102 | the index found holds the Department A flag, and no earlier department holds it; the length is returned only when no department holds it |
| Requests.FindDepartmentA | app/Http/Controllers/API/RequestController.php:102-108 | the department found holds the Department A flag, and nothing is found exactly when no department holds it |
| Requests.FindUniqueDepartmentA | app/Http/Controllers/API/RequestController.php:102 | when exactly one department holds the flag, submit routes to that department |
| RequestStore.DeleteOwner | database/migrations/2025_11_20_195509_create_requests_table.php:18-20 | deleting a user is refused exactly when a request they do not own names them as its assignee; otherwise it removes exactly the requests they own, leaves every other row as it was, and no surviving row names them as assignee |
| RequestController.Index | app/Http/Controllers/API/RequestController.php:13-20 | the list holds exactly the actor's own requests that are not soft-deleted, whatever their status |
| RequestController.Store | app/Http/Controllers/API/RequestController.php:27-39 | store fails with a validation error exactly when the title or the description is missing, null or blank once trimmed; otherwise it adds one new row under the next id, owned by the actor, in draft, with no department, assignee or path; old rows and the log are unchanged |
| RequestController.Update | app/Http/Controllers/API/RequestController.php:59-72 | update is not found unless the actor owns the live row and it is in draft or need_more_details, and this check comes before validation; it is a validation error exactly when a title or description is sent as null or blank; a success changes only title, description and additional details, each to the value sent (details may be sent as null) or left as it was when not sent, and touches no other row and not the log |
| RequestController.Destroy | app/Http/Controllers/API/RequestController.php:80-87 | destroy succeeds exactly for the owner of a live draft; the row is kept with its deletion mark set and nothing else changes |
| RequestController.Submit | app/Http/Controllers/API/RequestController.php:94-125 | submit is not found unless the owner's live row is in draft or need_more_details; a missing Department A is a configuration error with no change; a success sets status pending, Department A and the submission time, keeps assignee, path and every other column, and appends exactly one log record (submit, by the actor, to Department A, from draft to pending, with the fixed comment) |
| RequestController.OwnerActionsPreserveInvariants | app/Http/Controllers/API/RequestController.php:27-125 | store, update, destroy and submit keep the table well keyed, and no draft ever carries a department |
| RequestController.DeleteOwnerClearsIndex | database/migrations/2025_11_20_195509_create_requests_table.php:18 | after a user is successfully deleted their list of requests is empty, and every other user's list is unchanged |
| RequestController.IndexAfterStore | app/Http/Controllers/API/RequestController.php:13-39 | a newly stored request joins its owner's list and no one else's list |
| RequestController.DestroyHidesRequest | database/migrations/2025_11_20_195509_create_requests_table.php:28 | after a soft delete the request leaves its owner's list, and every later update, delete or submit of it is not found |
| RequestController.UpdateIdempotent | app/Http/Controllers/API/RequestController.php:72 | applying the same edit twice gives the same store as applying it once |
| RequestController.ResubmitLogsDraft | app/Http/Controllers/API/RequestController.php:122 | resubmitting a request in need_more_details succeeds, and its log record names draft, not the status it really left |
| RequestController.LogGrowsOnlyBySubmit | app/Http/Controllers/API/RequestController.php:117-125 | a successful submit adds exactly one log record; store, update and destroy add none |
| RequestController.RequiredRejectsBlank | app/Http/Controllers/API/RequestController.php:29-31 | a title of spaces and tabs is refused on create while one with a letter is accepted; on edit a title sent as null or as a newline is refused, while details sent as null are accepted |
| PathSteps.NextStep | app/Models/WorkflowPathStep.php:33-39 | the next step is a row of the same path with a strictly greater order, and no row of the path lies strictly between; there is none exactly when no row of the path has a greater order; a step is never its own next |
| PathSteps.PreviousStep | app/Models/WorkflowPathStep.php:41-47 | the previous step is a row of the same path with a strictly smaller order, and no row of the path lies strictly between; there is none exactly when no row of the path has a smaller order; a step is never its own previous |
| PathSteps.PreviousOfNext | app/Models/WorkflowPathStep.php:33-47 | when orders are distinct within a path, the previous step of a step's next step is that step |
| PathSteps.NextOfPrevious | app/Models/WorkflowPathStep.php:33-47 | when orders are distinct within a path, the next step of a step's previous step is that step |
| PathSteps.OrderedSteps | app/Models/WorkflowPath.php:27 | a path's step list holds exactly the path's rows, ordered by step_order, and strictly increasing when orders are distinct |
| PathSteps.SortByOrder | app/Models/WorkflowPath.php:27 | the sort returns a permutation of its input ordered by step_order |
| PathSteps.NextFollowsOrderedSteps | app/Models/WorkflowPathStep.php:33-39 | with distinct orders, the next step of each entry of the ordered step list is the entry after it, and the last entry has none |
| PathSteps.PreviousPrecedesOrderedSteps | app/Models/WorkflowPathStep.php:41-47 | with distinct orders, the previous step of each entry of the ordered step list is the entry before it, and the first entry has none |
| Evaluations.Find | database/migrations/2025_11_21_152926_create_request_evaluations_table.php:24 | the row found carries the requested (request, question) pair, and nothing is found exactly when no row carries it |
| Evaluations.Insert | database/migrations/2025_11_21_152926_create_request_evaluations_table.php:16-24 | an insert succeeds exactly when the score fits a 32-bit integer, the request, question and evaluator exist and the pair is not yet scored, and otherwise reports the first of those that fails; a success makes the new row the one found under its pair, leaves every other pair as it was, and keeps pairs unique |
| Evaluations.InsertsKeepKeysUnique | database/migrations/2025_11_21_152926_create_request_evaluations_table.php:24 | at most one evaluation exists per (request, question) pair after any successful insert, which adds exactly one row |
| Evaluations.ScoreRange | database/migrations/2025_11_21_152926_create_request_evaluations_table.php:19 | with its parents present, a first score is stored exactly when it lies in -2^31..2^31-1, 0..100 or not, and reads back unchanged |
| Evaluations.CascadeDelete | database/migrations/2025_11_21_152926_create_request_evaluations_table.php:16-18 | deleting a request, question or evaluator removes exactly the evaluations that refer to it, keeps every other row and keeps pairs unique |
| Evaluations.CascadeLookup | database/migrations/2025_11_21_152926_create_request_evaluations_table.php:16-17 | after deleting a request or a question, its pairs read as missing and every other pair reads as before |
| Evaluations.CascadesCommute | database/migrations/2025_11_21_152926_create_request_evaluations_table.php:16-17 | deleting a request and then a question leaves the same rows as deleting them in the other order |
| Workflow.OwnerLockedOut | app/Http/Controllers/API/RequestController.php:61-99 | a request outside draft and need_more_details refuses update, destroy and submit as not found, whoever asks |
| Workflow.CreateAndSubmit | tests/Feature/WorkflowTest.php:27-61 | creating then submitting succeeds, leaving the request pending at the department flagged as Department A, with one new log record |
| Workflow.AssignPathScenario | tests/Feature/WorkflowTest.php:100-134 | after assign-path the request is in_review on the chosen path, and its owner can no longer edit, delete or resubmit it |
| Workflow.RejectScenario | tests/Feature/WorkflowTest.php:140-164 | after reject the request is rejected with exactly the supplied reason, and its owner can no longer edit or resubmit it |
| Workflow.RequestDetailsScenario | tests/Feature/WorkflowTest.php:170-193 | after request-details the owner may edit and resubmit again, which routes the request back to Department A and logs it as leaving draft |
| Workflow.AssignEmployeeScenario | tests/Feature/WorkflowTest.php:233-263 | after assign-employee the chosen employee is the request's current user, so deleting that employee's account is refused while the request lives |
| Workflow.ReturnToDepartmentAScenario | tests/Feature/WorkflowTest.php:269-299 | after return-to-dept-a the request is pending at Department A, and its owner still cannot edit it |
| Workflow.EndToEnd | tests/Feature/WorkflowTest.php:305-357 | create, submit, assign-path, assign-employee and return-to-dept-a end with the request pending at Department A, with exactly one log record from the owner-scoped steps |

## Left out

- The HTTP and JSON layer: response bodies, status codes and messages. Errors are typed values instead.
- Validation rules beyond presence, such as `max:255` and `string`. These are transport checks.
- Input trimming. The TrimStrings and ConvertEmptyStringsToNull middleware are not part of this model, so a stored title or description keeps any surrounding blanks. `Present` applies the trim only to decide presence, as `required` does.
- Attachment upload and delete. These are file storage through an external disk.
- `show`, and the eager-loaded relations of every response. These are read projections only.
- The `created_at` ordering of `index`. `Index` returns a set.
- `created_at` and `updated_at` timestamps. No rule reads them.
- Authentication. The actor is an input.
- The unauthenticated 401/403 case of the last test. It depends on middleware order.
- WorkflowController, DepartmentWorkflowController and AdminController are not part of this model. Their routing actions appear only as the post-states the feature tests assert (`Workflow.*Pinned`).
- complete, return-to-previous, return-to-manager and submit-evaluation. No code or test here fixes their rules.
- The listing endpoints for Department A and for a department, and department memberships. Their controller is not part of this model, so the forbidden outcome of the last test (tests/Feature/WorkflowTest.php:363-371) would only restate the test's assertion and is not stated.
- Evaluation question weights, their sum check and the composite score. They live in AdminController, which is not part of this model.
- The Request and RequestTransition model files and the departments and transitions migrations are not part of this model. Soft delete is modelled as the `deleted_at` column of the requests migration suggests: `delete()` marks the row, and queries skip marked rows.
- `requires_approval` on a step. It is carried but no modelled code reads it.
- Concurrency between requests. Each action is a single sequential function.
- Workflow.EndToEnd: counts only the log record written by submit. The routing controllers' own log writes are not part of this model.
- Workflow.AssignPathScenario: constrains only the status and path of the row afterwards, as the test does. The department, the assignee and the log are left unconstrained.
- Workflow.AssignEmployeeScenario: constrains only the current user afterwards, as the test does. It assumes the employee is not the request's owner, as in the test.
- Workflow.ReturnToDepartmentAScenario: constrains only the status and department afterwards, as the test does.
- Workflow.RejectScenario: constrains only the status and reason afterwards, as the test does.
- Workflow.RequestDetailsScenario: constrains only the status afterwards, as the test does. The resubmission lemma assumes the routing action kept the row live.
- RequestStore.DeleteOwner: says nothing about the transition log. The transitions migration is not part of this model, so what its foreign keys do when a user is deleted is unknown. The refusal follows the standard end-of-statement check, where rows removed by the cascade no longer block; the other tables that reference users are not part of this model.
- Evaluations.Insert: which error is reported when several refusals apply is this model's choice. Database engines differ in the order of these checks. An out-of-range score is refused as in MySQL's strict mode, not clamped.
- Evaluations.Insert: covers inserts only. The code that writes evaluations, and whether it updates existing rows, is not part of this model.
