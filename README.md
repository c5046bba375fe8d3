# Status checker of the QuickBooks integration, in Dafny

This project models the status checker of the QuickBooks integration
(`lib/status_checker.rb`). The checker is a poll that an external scheduler
re-enters. It asks the accounting service whether a sales receipt it was sent
has finished synchronising. It answers with a result hash that means one of
three things:

- error: the record was not found, so the hash holds event code 400;
- completed: the hash holds only the message id;
- retry pending: the hash holds the message id, a delay of 6000 and the
  record's status address.

The checker also builds a diagnostic text from the service's message log.
That text is the descriptions of the log entries about the sales receipt,
joined with `", "`. If listing the log fails, the text is a fixed placeholder.

The two calls into the accounting service are inputs of the model:

- `receipt_service.fetch_by_id(id, idDomain)` becomes an `Option<Receipt>`;
- `status_service.list` becomes a `Result<seq<Entry>, ListFailure>`.

The message id, which the checker reads from the payload of its message, is a
parameter. The result hash is a `map<string, Value>` over a small model of Ruby
values, so "only the message id" and "no delay" are statements about its keys.
A poll that produces no hash at all (Ruby `nil`) is `None`.

Files:

- `wrappers.dfy` (module `Wrappers`): `Option` and `Result`.
- `sequences.dfy` (module `Sequences`): Ruby's `select` as `Filter`, `join` as
  `Join`, and a first-occurrence search. `Filter` and `Join` come with lemmas
  that characterise them without their bodies; `FirstIndexOf`'s own ensures
  characterise it.
- `status_checker.dfy` (module `StatusChecker`): the checker.

The checker's main properties are:

- The three result shapes are told apart by their keys. `ReadResult` is the
  model's own decoder of those shapes. Decoding a poll's result hash gives
  exactly the transition of the poll's state machine (`PollTransition`).
- A status other than `"true"` or `"false"` yields no result.
- When the identifier domain holds no `/`, the status address in a pending
  result leads back to the polled record.
- The diagnostic text holds the descriptions of exactly the matching entries,
  in log order, with `", "` between them.

Three details of the code that the model keeps:

- The poll has a fourth outcome. The `if`/`elsif` chain
  (lib/status_checker.rb:22-35) has no `else`, so any status other than
  `"true"` or `"false"` gives `nil`.
- The log is always filtered on the object type `"SalesReceipt"`
  (lib/status_checker.rb:41).
- The default re-check interval (`self.delay`, five minutes, 300 seconds) is
  a constant of its own. It is not the 6000 written into a pending result.

## Model

| member | source | states |
|---|---|---|
| `StatusChecker.DefaultDelay` | lib/status_checker.rb:15-17 | the default re-check interval is five minutes, 300 seconds, and differs from the pending delay of 6000 |
| `StatusChecker.UpdateUrl` | lib/status_checker.rb:33 | the status address starts with `http://localhost:3000/status/`; its length is the prefix plus domain, one `/` and identifier |
| `StatusChecker.VerifyQuickbooksImport` | lib/status_checker.rb:19-37 | there is a result iff no record was found or the status is `"true"` or `"false"`. Every result carries the given message id unchanged. No record gives exactly the keys `message_id`, `events`, with `events` = `{code: 400}`. `"true"` gives only `message_id`. `"false"` gives exactly `message_id`, `delay` = 6000 and `update_url` = the record's status address |
| `StatusChecker.PollResultMeansTransition` | lib/status_checker.rb:22-36 | for every response, decoding the result hash by its shape (the model's own decoder `ReadResult`) gives the poll's transition: error 400, completed, retry pending with delay and address, or none |
| `StatusChecker.PollResultsExclusive` | lib/status_checker.rb:22-36 | the branches are mutually exclusive: two responses that give the same result hash have the same transition, both or neither lack a record, and have the same status |
| `StatusChecker.UpdateUrlRoundTrip` | lib/status_checker.rb:33 | when the identifier domain holds no `/`, parsing the status address gives back the domain and the identifier |
| `StatusChecker.UpdateUrlAmbiguous` | lib/status_checker.rb:33 | with a `/` in the domain, two different records (`a/b`,`c` and `a`,`b/c`) get the same status address |
| `StatusChecker.PendingUrlNamesRecord` | lib/status_checker.rb:29-34 | when the identifier domain holds no `/`, the `update_url` of a pending result names the record the checker polls: parsing it gives the checker's domain and identifier |
| `StatusChecker.Descriptions` | lib/status_checker.rb:41 | `collect` of the descriptions keeps the length and takes each entry's description at the same position |
| `StatusChecker.GetErrors` | lib/status_checker.rb:39-45 | a listing that fails with an exception the `rescue` catches gives `"No Error Information Found"` and does not propagate. A log with no entry for this sales receipt gives the empty string |
| `StatusChecker.GetErrorsExactly` | lib/status_checker.rb:41 | the text is the join, with `", "`, of the descriptions of any selection that holds only entries of object type `SalesReceipt` with this id, holds each such entry as often as the log does, and keeps log order |
| `StatusChecker.GetErrorsAt` | lib/status_checker.rb:41 | the k-th matching description appears in the text at its offset, followed by `", "` when another follows |
| `StatusChecker.GetErrorsAppend` | lib/status_checker.rb:41 | for a log of two segments that both mention the receipt, the text is the first segment's text, `", "`, then the second's |
| `StatusChecker.GetErrorsIgnoresOtherEntries` | lib/status_checker.rb:41 | appending entries not about this receipt leaves the text unchanged |
| `StatusChecker.ReceiptEntries` | lib/status_checker.rb:41 | the `select` block (`IsReceiptEntry`: object type `SalesReceipt` and id equal to the checker's): every selected entry is about this receipt, and no more entries are selected than logged (full characterisation: `FilterSpec`/`FilterUnique` applied to its body, and `GetErrorsExactly`) |
| `StatusChecker.ReceiptEntriesAbsent` | lib/status_checker.rb:41 | a log with no entry of object type `SalesReceipt` and this id selects nothing |
| `StatusChecker.ReceiptEntriesNonEmpty` | lib/status_checker.rb:41 | a log with such an entry selects something |
| `StatusChecker.ReceiptEntriesAppend` | lib/status_checker.rb:41 | selecting from two log segments selects from each, in order |
| `Sequences.Filter` | lib/status_checker.rb:41 | `select` returns only elements satisfying the block, and no more elements than its input (full characterisation in `FilterSpec` and `FilterUnique`) |
| `Sequences.FilterSpec` | lib/status_checker.rb:41 | `select` keeps only elements satisfying the block, each as often as in the input, in input order |
| `Sequences.FilterUnique` | lib/status_checker.rb:41 | any selection with those three properties is the `select` result |
| `Sequences.FilterNone` | lib/status_checker.rb:41 | when no element satisfies the block, `select` gives the empty list |
| `Sequences.FilterSome` | lib/status_checker.rb:41 | when some element satisfies the block, `select` gives a non-empty list |
| `Sequences.FilterAppend` | lib/status_checker.rb:41 | `select` distributes over concatenation |
| `Sequences.Join` | lib/status_checker.rb:41 | `join` of no parts is the empty string, and a joined string starts with its first part (full characterisation in `JoinAt` and `JoinLength`) |
| `Sequences.JoinLength` | lib/status_checker.rb:41 | `join` has the total length of the parts plus one separator between each two parts |
| `Sequences.JoinAt` | lib/status_checker.rb:41 | each part occurs in the joined string at its offset, with exactly the separator between consecutive parts |
| `Sequences.JoinAppend` | lib/status_checker.rb:41 | joining a concatenation of two non-empty lists puts one separator between the two joined halves |

## Left out

- `after_initialize` (lib/status_checker.rb:5-9) is not modelled as an operation. It stores the message, its key and `payload['order']['actual']`. The model keeps `key` and `order` only as fields of `Checker`, and does not model the digging into the payload.
- `consume` (lib/status_checker.rb:11-13) only calls `verify_quickbooks_import`, so it has no member of its own.
- The `Client` superclass is not part of this model. Neither are the services it provides or `@payload`. The fetched record, the log listing and `message_id` are inputs.
- `GetErrors`: the bare `rescue` (lib/status_checker.rb:42) catches any `StandardError` raised in the whole chain, including one from a malformed log entry. `ListFailure` stands for such a caught failure of the listing. Exceptions outside `StandardError` (an interrupt or other signal, running out of memory, a stack overflow, a `ScriptError`) propagate out of `get_errors` and are not modelled. The model treats log entries as well-formed records with string fields. A `nil` description, which `join` would render as empty, is not modelled.
- `VerifyQuickbooksImport`: the method has no `rescue`, so an exception raised by `receipt_service.fetch_by_id` (lib/status_checker.rb:20), or a missing `@payload` (lines 24, 28, 30), propagates to the caller. The model takes the fetch result as an `Option<Receipt>` and does not model that raising path.
- `VerifyQuickbooksImport`: `id` and `idDomain` are taken as strings. A `nil` attribute, which interpolation would render as empty, is not modelled.
- `Checker.key` and `Checker.order` are kept as the checker's fields (set by `after_initialize`), but no modelled operation reads them, as none in the source does.
- The scheduler that re-enqueues the checker, and the unit in which it reads `delay`, are not part of this model.
- `quickbooks_endpoint.rb` (HTTP routing and configuration) is not part of this model. Neither are `QBIntegration::Order`, `QBIntegration::Product`, `QBIntegration::ReturnAuthorization` and `QBIntegration::Stock`, which the endpoint calls, nor `QBIntegration::Service::PaymentMethod` and `Quickbooks::Online::Client`, whose tests are in the repository but whose code is not part of this model.
