# Helpdesk tickets ("Chamados") — a Dafny model

This project models the request handlers of a small Flask helpdesk
application (`app.py`). Users register with an email and a password, open
support tickets (*chamados*) with an optional attachment, exchange messages
(*mensagens*) on a ticket, list their own tickets and delete them.

The database tables and the upload directory become one immutable `Store`:
three maps from ids to `User`, `Ticket` and `Message` records, a next-id
counter per table (SQLite row ids start at 1), and a set of file names that
stands for the upload directory. Each route is a pure transition that returns
`Ok(store')` or `Err(e)`, where `e` is one of `EmptyField`, `DuplicateEmail`,
`UnsupportedFileType`, `NotFound` and `Forbidden`. An error carries no store,
so the store from before the request stays in force: a failed request
changes nothing. The id of the logged-in user (`current_user.id`) is an input
of every handler behind `login_required`.

Modules:

- `Text` (`text.dfy`): the string operations the handlers use, on ASCII.
  These are `lower()`, `strip()` (Python's whitespace set: 9-13, 28-31 and
  space), the slice `[:n]`, and `split(c)` / `join` with a one-character
  separator.
- `Attachments` (`attachments.dfy`): the extension allow-list check.
- `Records` (`records.dfy`): the records, the store, the error type and the
  store invariant `Valid`. `Valid` says ids lie below their counters, emails
  are unique, and all foreign keys resolve.
- `Handlers` (`handlers.dfy`): `registro`, `criar_chamado`, `meus_chamados`,
  `visualizar_mensagens`, `enviar_mensagem` and `deletar_chamado`.
- `Invariants` (`invariants.dfy`): lemmas that relate several requests. Every
  handler keeps `Valid`. Other lemmas cover registering twice, deleting twice,
  listing after creation, threads after sending and deleting, and a whole
  register–create–send–delete session.

Two details of app.py that the model keeps:

- A new ticket's status is the literal `'Aberto'` (app.py:165).
- A file named just `pdf` (no dot) passes the extension check, because
  `split('.')[-1]` of a dot-free name is the whole name (app.py:148).

A message's recipient is always the ticket's owner. This is true even when the
owner is the sender: both arms of the conditional at app.py:201 choose the
owner. `Invariants.RecipientIsAlwaysOwner` states this. Any logged-in user may
send a message on any ticket; only viewing and deleting check ownership.

## Model

| member | source | states |
|---|---|---|
| `Handlers.Register` | app.py:89-116 | Fails with EmptyField exactly when the email or the password is empty. Otherwise fails with DuplicateEmail exactly when a stored user has that email. It succeeds exactly when both fields are non-empty and the email is free; it then adds one user at the next id, storing the email and `hash(password)`, and changes nothing else. |
| `Records.EmailTaken` | app.py:101 | The duplicate test: some stored user already has this email. |
| `Invariants.RegisterTwiceFails` | app.py:100-104 | After a successful registration, registering the same email again fails with DuplicateEmail, whatever the new (non-empty) password. |
| `Invariants.RegisterAddsOneUser` | app.py:106-111 | In a store whose ids lie below their counters, a successful registration uses an unused id and grows the user table by exactly one. |
| `Invariants.RegisterPreservesValid` | app.py:20-23 | Registration keeps the store invariant; in particular no two users ever share an email (the unique constraint on `email`). |
| `Handlers.CreateTicket` | app.py:136-170 | Fails with UnsupportedFileType exactly when a file was chosen (its name is not empty) and its extension is not allowed. Otherwise it adds one ticket at the next id and changes no other ticket, no user and no message. The new ticket has owner `me` and status "Aberto". Its subject is a prefix of the input of length min(50, input length). Its description is the stripped input. It has an attachment exactly when a file was chosen, and that attachment is the sanitised name. The upload set gains exactly that name. |
| `Handlers.Attached` | app.py:147 | A file part counts as chosen exactly when its name is not empty. |
| `Invariants.LongSubjectTruncated` | app.py:141 | With no file chosen, creation succeeds and an 80-character subject is stored as its first 50 characters. |
| `Invariants.CreateTicketListed` | app.py:157-168 | A created ticket joins its creator's tickets, and every other user's tickets stay the same. |
| `Invariants.CreateTicketPreservesValid` | app.py:33-43 | Creating a ticket for a stored user keeps the store invariant: the owner reference resolves and ids stay fresh. |
| `Text.Truncate` | app.py:141 | `s[:n]` is a prefix of `s` whose length is the smaller of `n` and the length of `s`. |
| `Text.TruncateShort` | app.py:141 | Truncation leaves a text unchanged exactly when it is no longer than the limit. |
| `Text.Lower` | app.py:148 | `lower()` on ASCII keeps the length, leaves no upper-case letter, keeps every character that is not A-Z, and maps each of A-Z to the matching a-z. |
| `Text.Strip` | app.py:142 | `strip()` gives a contiguous stretch of the input. Everything before it and after it is whitespace, and it neither starts nor ends with whitespace. |
| `Text.StripIdempotent` | app.py:142 | Stripping twice is the same as stripping once. |
| `Text.StripAllSpace` | app.py:142 | A description made only of whitespace is stored empty. |
| `Text.Split` | app.py:148 | `split(c)` returns at least one piece (what the pieces are is stated by the four lemmas below). |
| `Text.SplitPiecesSepFree` | app.py:148 | No piece of `split(c)` contains `c`. |
| `Text.SplitLastPiece` | app.py:148 | The last piece of `split(c)` is the text after the last `c`, or the whole text when there is no `c`. |
| `Text.Join` | app.py:148 | `c.join(pieces)`, the inverse used to characterise `split`: the result starts with the first piece and ends with the last. |
| `Text.JoinSplit` | app.py:148 | Joining the pieces of `split(c)` with `c` gives back the original text. |
| `Text.SplitJoin` | app.py:148 | Splitting `c`-free pieces joined with `c` gives back the pieces. |
| `Text.LastSegmentUnique` | app.py:148 | Only one text can be the text after the last separator. |
| `Attachments.Extension` | app.py:148 | `filename.split('.')[-1]` is the text after the last '.', or the whole name when it has no '.'. |
| `Attachments.ExtensionAllowed` | app.py:148 | The whole test at line 148: the lower-cased extension is one of txt, pdf, png, jpg, jpeg, gif, zip, mp3, mp4. `AcceptedIffEndsWithAllowed` restates it without splitting. |
| `Attachments.LowerExtension` | app.py:148 | Lower-casing the extension gives the extension of the lower-cased name. |
| `Attachments.DotSuffixIsLastSegment` | app.py:148 | For a dot-free extension `e`, a name ends in "." + `e` (or is `e`) exactly when `e` is the text after its last '.'. |
| `Attachments.AcceptedIffEndsWithAllowed` | app.py:148-150 | A name passes the check exactly when, ignoring case, it ends in "." plus one of txt, pdf, png, jpg, jpeg, gif, zip, mp3, mp4, or is one of them. |
| `Attachments.AcceptsUpperCase` | app.py:148 | The check ignores case: `Photo.JPEG` passes. |
| `Attachments.AcceptsLastPieceOnly` | app.py:148 | Only the last piece counts: `archive.tar.zip` passes. |
| `Attachments.AcceptsBareExtension` | app.py:148 | A dot-free name that equals an allowed extension (`pdf`) passes. |
| `Attachments.RejectsExe` | app.py:148-150 | `setup.exe` and `notes.txt.exe` are rejected. |
| `Attachments.RejectsTrailingDot` | app.py:148-150 | A name ending in '.' has an empty extension and is rejected. |
| `Handlers.Select` | app.py:182 | Returns the ids of exactly the entries that satisfy the filter, each once, in increasing id order. |
| `Handlers.ListOwnTickets` | app.py:182 | Lists exactly the tickets whose owner is the caller, no more and no fewer, each once. |
| `Handlers.Authorize` | app.py:189-192 | Fails with NotFound exactly for an unknown ticket id, and with Forbidden exactly for a stored ticket the caller does not own. Otherwise it returns the stored ticket. |
| `Handlers.ViewMessages` | app.py:186-194 | Fails with NotFound or Forbidden under the same conditions as `Authorize`, and succeeds exactly for the owner of a stored ticket. For the owner it returns exactly the messages of that ticket, in creation order. |
| `Handlers.SendMessage` | app.py:199-209 | Fails with NotFound exactly for an unknown ticket id. Otherwise it appends exactly one message at the next id, from the caller to the ticket's owner, on that ticket. Nothing else changes. |
| `Invariants.RecipientIsAlwaysOwner` | app.py:201 | Any user may send on an existing ticket, and whoever sends, the recipient is the ticket's owner. |
| `Invariants.SendMessageExtendsThread` | app.py:204-213 | Sending adds the new message to that ticket's thread and to no other thread. |
| `Invariants.SendMessagePreservesValid` | app.py:46-52 | Sending as a stored user keeps the store invariant: the sender, the recipient and the ticket all resolve. |
| `Handlers.RemoveAttachment` | app.py:232-241 | Only the ticket's own attachment name can leave the upload set. It leaves when the ticket has a non-empty attachment name and removal does not fail; when there is no such name, or removal fails, the set is unchanged. A name that is not in the set is tolerated. |
| `Records.HasAttachment` | app.py:232 | A ticket's attachment is truthy exactly when it is present and not the empty name. |
| `Handlers.DeleteTicket` | app.py:225-245 | Fails with NotFound for an unknown id and with Forbidden for a non-owner, and succeeds exactly for the owner, whether or not the attachment file is present. It then removes the ticket and exactly the messages whose ticket id is that ticket. Every other ticket and message is untouched. The upload set loses at most the attachment, and users and counters are unchanged. |
| `Invariants.DeleteCascades` | app.py:243-245 | After a deletion, the ticket's thread is empty. Every other ticket's thread is unchanged, and the owner's list loses exactly that ticket. |
| `Invariants.DeleteTwiceNotFound` | app.py:226 | Deleting the same ticket a second time fails with NotFound. |
| `Invariants.DeleteToleratesMissingFile` | app.py:238-239 | The owner's deletion succeeds even when the attachment file is not in the upload set, and the set is then unchanged. |
| `Invariants.DeleteTicketPreservesValid` | app.py:43-52 | Deletion keeps the store invariant: no message is left pointing at the deleted ticket. |
| `Records.EmptyValid` | app.py:63-69 | The fresh store (empty tables, empty upload directory) satisfies the invariant. |
| `Records.Valid` | app.py:20-52 | The store invariant behind the database constraints: ids lie below their counters, emails are unique (line 22), and ticket owners, message senders, recipients and tickets all resolve (lines 35, 48-49, 52). |
| `Invariants.Session` | app.py:89-247 | Covers register, then create a ticket with an accepted attachment, then send, then delete, all on a fresh store. After creation the user's list is the one ticket, with status "Aberto", and its file is in the upload set. After sending, the thread is the one message from the user. After deletion the list and the thread are empty and the file is gone. |
| `Invariants.AliceSession` | app.py:89-247 | The same session for `alice@example.com` / `pw123` with `notes.txt` attached, each of the four stores tied to its handler call. |

## Left out

- Flask routing, templates, `flash` messages, redirects and HTTP rendering. Outcomes are `Result` values; the warnings `deletar_chamado` flashes are not modelled.
- The login route, `logout`, `load_user` and the `login_required` gate (app.py:57-86, 120-126). The logged-in user's id is an input.
- Password hashing: `generate_password_hash` is the function parameter `hash`, and the model states only that the stored value is `hash(password)`. Password checking belongs to login, which is not part of this model.
- A POST without an `arquivo_anexo` file part: `request.files['arquivo_anexo']` (app.py:143) then raises before the `try` and Flask answers 400, creating nothing. The model's file part is always present; "no file chosen" is a part with an empty name.
- `secure_filename`: the sanitised name is an input (`Upload.storedName`). The model assumes that saving under that name succeeds. An empty sanitised name, which would make `arquivo.save` at app.py:154 fail and roll back, is not modelled as a failure.
- File contents and real I/O (`arquivo.save`, `os.remove`, creating the upload directory) are abstracted as a set of file names. Last-writer-wins overwrites are invisible in a set. Two tickets can share an attachment name; deleting one removes the name the other still refers to.
- A removal error other than a missing file is modelled as the boolean input `removeFails`. Its message is not modelled.
- SQLAlchemy sessions, rollback, and exceptions raised by `db.session.commit()` (app.py:111, 168, 213, 245). For example, `prioridade_do_chamado` is a SQLite INTEGER, so a parsed priority outside the signed 64-bit range fails at the commit on app.py:168 and creates no ticket; `CreateTicket` accepts any `int`. Ids come from per-table counters, not from SQLite.
- Message timestamps (`data_envio`), because they come from a wall clock.
- Parsing the priority with `int()` (app.py:139): the priority is an already-parsed `int`, and the parse failure is not modelled.
- Column length limits (`String(50)`, `String(100)`): SQLite does not enforce them, and the handlers do not check them apart from the subject slice.
- `lower()` and `strip()` beyond ASCII: Unicode case mapping and non-ASCII whitespace are not modelled.
