/**
 The request handlers of app.py as transitions on the store. The logged-in
 user's id `me` is an input of every handler behind `login_required`.
 */
module Handlers {
  import opened Text
  import opened Records
  import Attachments

  /* ----------------------------------------------------------------------- */
  /* registro (app.py:89-118)                                                */
  /* ----------------------------------------------------------------------- */

  /** Registers `email` with `password`; `hash` stands for
      `generate_password_hash`. Empty fields are reported before duplicates. */
  function Register(s: Store, email: string, password: string, hash: string -> string): (r: Result<Store>)
    ensures r == Err(EmptyField) <==> email == [] || password == []
    ensures r == Err(DuplicateEmail) <==> email != [] && password != [] && EmailTaken(s, email)
    ensures r.Ok? <==> email != [] && password != [] && !EmailTaken(s, email)
    ensures r.Ok? ==> AddsEntry(s.users, r.value.users, s.nextUser, User(email, hash(password)))
    ensures r.Ok? ==> r.value.nextUser == s.nextUser + 1
    ensures r.Ok? ==> r.value.(users := s.users, nextUser := s.nextUser) == s
  {
    if email == [] || password == [] then Err(EmptyField)
    else if EmailTaken(s, email) then Err(DuplicateEmail)
    else Ok(s.(users := s.users[s.nextUser := User(email, hash(password))], nextUser := s.nextUser + 1))
  }

  /* ----------------------------------------------------------------------- */
  /* criar_chamado (app.py:134-176)                                          */
  /* ----------------------------------------------------------------------- */

  /** The form fields of a new ticket, the priority already parsed. */
  datatype TicketForm = TicketForm(
    requestType: string,
    priority: int,
    kind: string,
    subject: string,
    description: string)

  /** The file part of the form: the name the browser sent (empty when no file
      was chosen) and the name `secure_filename` makes of it, under which the
      file is saved. */
  datatype Upload = Upload(filename: string, storedName: string)

  /** A file was chosen: a file part is truthy exactly when its name is not
      empty. */
  predicate Attached(file: Upload)
  {
    file.filename != ""
  }

  /** Creates a ticket owned by `me`. A chosen file must pass the extension
      check, which looks at the name as sent; the file is then saved under its
      sanitised name, and only that name is kept on the ticket. */
  function CreateTicket(s: Store, me: Id, form: TicketForm, file: Upload): (r: Result<Store>)
    ensures r.Err? <==> Attached(file) && !Attachments.ExtensionAllowed(file.filename)
    ensures r.Err? ==> r.error == UnsupportedFileType
    ensures r.Ok? ==> s.nextTicket in r.value.tickets
    ensures r.Ok? ==>
      var t := r.value.tickets[s.nextTicket];
      && t.owner == me
      && t.requestType == form.requestType
      && t.priority == form.priority
      && t.kind == form.kind
      && t.subject <= form.subject
      && |t.subject| == Min(SubjectLimit, |form.subject|)
      && t.description == Strip(form.description)
      && t.status == InitialStatus
      && (t.attachment.Some? <==> Attached(file))
      && (Attached(file) ==> t.attachment.value == file.storedName)
    ensures r.Ok? ==> forall k :: k != s.nextTicket ==>
      (k in r.value.tickets <==> k in s.tickets) && (k in s.tickets ==> r.value.tickets[k] == s.tickets[k])
    ensures r.Ok? && Attached(file) ==> r.value.uploads == s.uploads + {file.storedName}
    ensures r.Ok? && !Attached(file) ==> r.value.uploads == s.uploads
    ensures r.Ok? ==> r.value.nextTicket == s.nextTicket + 1
    ensures r.Ok? ==> r.value.(tickets := s.tickets, uploads := s.uploads, nextTicket := s.nextTicket) == s
  {
    var subject := Truncate(form.subject, SubjectLimit);
    var description := Strip(form.description);
    if Attached(file) && !Attachments.ExtensionAllowed(file.filename) then
      Err(UnsupportedFileType)
    else
      var stored := if Attached(file) then Some(file.storedName) else None;
      var uploads := if Attached(file) then s.uploads + {file.storedName} else s.uploads;
      var t := Ticket(me, form.requestType, form.priority, form.kind, subject, description, stored, InitialStatus);
      Ok(s.(tickets := s.tickets[s.nextTicket := t], uploads := uploads, nextTicket := s.nextTicket + 1))
  }

  /* ----------------------------------------------------------------------- */
  /* Queries                                                                 */
  /* ----------------------------------------------------------------------- */

  predicate IsLeast(least: Id, xs: set<Id>)
  {
    least in xs && forall k :: k in xs ==> least <= k
  }

  /** Finite nonempty sets of ids have a least element. */
  lemma HasLeast(xs: set<Id>)
    requires xs != {}
    ensures exists least :: IsLeast(least, xs)
  {
    var x :| x in xs;
    if xs != {x} {
      var rest := xs - {x};
      HasLeast(rest);
      var m :| IsLeast(m, rest);
      var least := if x < m then x else m;
      forall k | k in xs
        ensures least <= k
      {
        if k != x {
          assert k in rest;
        }
      }
      assert IsLeast(least, xs);
    } else {
      assert IsLeast(x, xs);
    }
  }

  /** The ids of `m` whose entries satisfy `keep`, in increasing id order (the
      order in which rows were inserted). */
  method Select<V>(m: map<Id, V>, keep: V -> bool) returns (ids: seq<Id>)
    ensures forall k :: k in ids <==> k in m && keep(m[k])
    ensures forall i, j :: 0 <= i < j < |ids| ==> ids[i] < ids[j]
  {
    var remaining := m.Keys;
    ids := [];
    while remaining != {}
      invariant remaining <= m.Keys
      invariant forall k :: k in ids <==> k in m && k !in remaining && keep(m[k])
      invariant forall i, j :: 0 <= i < j < |ids| ==> ids[i] < ids[j]
      invariant forall i, k :: 0 <= i < |ids| && k in remaining ==> ids[i] < k
      decreases remaining
    {
      HasLeast(remaining);
      var least :| IsLeast(least, remaining);
      var ids' := if keep(m[least]) then ids + [least] else ids;
      assert forall k :: k in ids' <==> k in ids || (k == least && keep(m[least]));
      ids, remaining := ids', remaining - {least};
    }
  }

  /** The tickets of user `me`. */
  function OwnedBy(s: Store, me: Id): set<Id>
  {
    set t | t in s.tickets && s.tickets[t].owner == me
  }

  /** The messages of ticket `tid`. */
  function ThreadOf(s: Store, tid: Id): set<Id>
  {
    set k | k in s.messages && s.messages[k].ticket == tid
  }

  /** `meus_chamados` (app.py:179-183): the ids of exactly the tickets `me`
      owns, each once. */
  method ListOwnTickets(s: Store, me: Id) returns (ids: seq<Id>)
    ensures forall t :: t in ids <==> t in s.tickets && s.tickets[t].owner == me
    ensures forall i, j :: 0 <= i < j < |ids| ==> ids[i] != ids[j]
  {
    ids := Select(s.tickets, (t: Ticket) => t.owner == me);
  }

  /** The owner gate shared by viewing and deleting: `get_or_404` first, then
      the ownership check that aborts with 403. */
  function Authorize(s: Store, me: Id, tid: Id): (r: Result<Ticket>)
    ensures r == Err(NotFound) <==> tid !in s.tickets
    ensures r == Err(Forbidden) <==> tid in s.tickets && s.tickets[tid].owner != me
    ensures r.Ok? <==> tid in s.tickets && s.tickets[tid].owner == me
    ensures r.Ok? ==> r.value == s.tickets[tid]
  {
    if tid !in s.tickets then Err(NotFound)
    else if s.tickets[tid].owner != me then Err(Forbidden)
    else Ok(s.tickets[tid])
  }

  /** `visualizar_mensagens` (app.py:186-194): for the owner, the ids of all
      messages of the ticket in creation order. */
  method ViewMessages(s: Store, me: Id, tid: Id) returns (r: Result<seq<Id>>)
    ensures r == Err(NotFound) <==> tid !in s.tickets
    ensures r == Err(Forbidden) <==> tid in s.tickets && s.tickets[tid].owner != me
    ensures r.Ok? <==> tid in s.tickets && s.tickets[tid].owner == me
    ensures r.Ok? ==> forall k :: k in r.value <==> k in s.messages && s.messages[k].ticket == tid
    ensures r.Ok? ==> forall i, j :: 0 <= i < j < |r.value| ==> r.value[i] < r.value[j]
  {
    var gate := Authorize(s, me, tid);
    if gate.Err? {
      return Err(gate.error);
    }
    var ids := Select(s.messages, (m: Message) => m.ticket == tid);
    return Ok(ids);
  }

  /* ----------------------------------------------------------------------- */
  /* enviar_mensagem (app.py:197-219)                                        */
  /* ----------------------------------------------------------------------- */

  /** Appends a message from `me` on ticket `tid`. Any logged-in user may send,
      and the recipient is the ticket's owner whoever the sender is. */
  function SendMessage(s: Store, me: Id, tid: Id, body: string): (r: Result<Store>)
    ensures r.Err? <==> tid !in s.tickets
    ensures r.Err? ==> r.error == NotFound
    ensures r.Ok? ==> AddsEntry(s.messages, r.value.messages, s.nextMessage,
                                Message(me, s.tickets[tid].owner, body, tid))
    ensures r.Ok? ==> r.value.nextMessage == s.nextMessage + 1
    ensures r.Ok? ==> r.value.(messages := s.messages, nextMessage := s.nextMessage) == s
  {
    if tid !in s.tickets then Err(NotFound)
    else
      var owner := s.tickets[tid].owner;
      // Both arms of the conditional at app.py:201 pick the owner.
      var recipient := if me != owner then owner else owner;
      Ok(s.(messages := s.messages[s.nextMessage := Message(me, recipient, body, tid)],
            nextMessage := s.nextMessage + 1))
  }

  /* ----------------------------------------------------------------------- */
  /* deletar_chamado (app.py:223-247)                                        */
  /* ----------------------------------------------------------------------- */

  /** Removes the attachment's name from the upload set. A name that is not
      there is the tolerated `FileNotFoundError`; `removeFails` stands for any
      other error of `os.remove`, which leaves the file in place. Neither
      stops the deletion. */
  function RemoveAttachment(uploads: set<string>, t: Ticket, removeFails: bool): (u: set<string>)
    ensures u <= uploads
    ensures HasAttachment(t) && !removeFails ==> t.attachment.value !in u
    ensures !HasAttachment(t) || removeFails ==> u == uploads
    ensures forall f :: f in uploads && (f !in u) ==> HasAttachment(t) && f == t.attachment.value
  {
    if HasAttachment(t) && !removeFails then uploads - {t.attachment.value} else uploads
  }

  /** Deletes ticket `tid` for its owner together with every message on it
      (the `delete-orphan` cascade), removing its attachment best-effort. */
  function DeleteTicket(s: Store, me: Id, tid: Id, removeFails: bool): (r: Result<Store>)
    ensures r == Err(NotFound) <==> tid !in s.tickets
    ensures r == Err(Forbidden) <==> tid in s.tickets && s.tickets[tid].owner != me
    ensures r.Ok? <==> tid in s.tickets && s.tickets[tid].owner == me
    ensures r.Ok? ==> tid !in r.value.tickets
    ensures r.Ok? ==> forall k :: k != tid ==>
      (k in r.value.tickets <==> k in s.tickets) && (k in s.tickets ==> r.value.tickets[k] == s.tickets[k])
    ensures r.Ok? ==> forall k :: k in r.value.messages <==> k in s.messages && s.messages[k].ticket != tid
    ensures r.Ok? ==> forall k :: k in r.value.messages ==> r.value.messages[k] == s.messages[k]
    ensures r.Ok? ==> r.value.uploads == RemoveAttachment(s.uploads, s.tickets[tid], removeFails)
    ensures r.Ok? ==> r.value.(tickets := s.tickets, messages := s.messages, uploads := s.uploads) == s
  {
    match Authorize(s, me, tid)
    case Err(e) => Err(e)
    case Ok(t) =>
      var messages := map k | k in s.messages && s.messages[k].ticket != tid :: s.messages[k];
      Ok(s.(tickets := s.tickets - {tid},
            messages := messages,
            uploads := RemoveAttachment(s.uploads, t, removeFails)))
  }
}
