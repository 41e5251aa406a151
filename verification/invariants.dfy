/**
 Properties that relate several requests: the store invariant is kept by every
 handler, and requests compose as the application promises.
 */
module Invariants {
  import opened Text
  import opened Records
  import opened Handlers

  /* ----------------------------------------------------------------------- */
  /* The invariant is kept                                                   */
  /* ----------------------------------------------------------------------- */

  /** Registration never makes two users share an email. */
  lemma RegisterPreservesValid(s: Store, email: string, password: string, hash: string -> string)
    requires Valid(s)
    requires Register(s, email, password, hash).Ok?
    ensures Valid(Register(s, email, password, hash).value)
  {
    var s' := Register(s, email, password, hash).value;
    forall a, b | a in s'.users && b in s'.users && a != b
      ensures s'.users[a].email != s'.users[b].email
    {
      if a == s.nextUser {
        assert s.users[b].email != email;
      } else if b == s.nextUser {
        assert s.users[a].email != email;
      }
    }
  }

  /** A new ticket belongs to the logged-in user, who is a stored user. */
  lemma CreateTicketPreservesValid(s: Store, me: Id, form: TicketForm, file: Upload)
    requires Valid(s) && me in s.users
    requires CreateTicket(s, me, form, file).Ok?
    ensures Valid(CreateTicket(s, me, form, file).value)
  {
  }

  lemma SendMessagePreservesValid(s: Store, me: Id, tid: Id, body: string)
    requires Valid(s) && me in s.users
    requires SendMessage(s, me, tid, body).Ok?
    ensures Valid(SendMessage(s, me, tid, body).value)
  {
  }

  /** The cascade leaves no message pointing at the deleted ticket. */
  lemma DeleteTicketPreservesValid(s: Store, me: Id, tid: Id, removeFails: bool)
    requires Valid(s)
    requires DeleteTicket(s, me, tid, removeFails).Ok?
    ensures Valid(DeleteTicket(s, me, tid, removeFails).value)
  {
  }

  /* ----------------------------------------------------------------------- */
  /* Registration                                                            */
  /* ----------------------------------------------------------------------- */

  /** A successful registration adds exactly one user, under a fresh id. */
  lemma RegisterAddsOneUser(s: Store, email: string, password: string, hash: string -> string)
    requires IdsBelowNext(s)
    requires Register(s, email, password, hash).Ok?
    ensures s.nextUser !in s.users
    ensures |Register(s, email, password, hash).value.users| == |s.users| + 1
  {
    var s' := Register(s, email, password, hash).value;
    assert s'.users.Keys == s.users.Keys + {s.nextUser};
  }

  /** Registering the same email a second time fails, whatever the password. */
  lemma RegisterTwiceFails(s: Store, email: string, password: string, password2: string, hash: string -> string)
    requires Register(s, email, password, hash).Ok?
    requires password2 != []
    ensures Register(Register(s, email, password, hash).value, email, password2, hash) == Err(DuplicateEmail)
  {
    var s' := Register(s, email, password, hash).value;
    assert s'.users[s.nextUser].email == email;
  }

  /* ----------------------------------------------------------------------- */
  /* Tickets and listing                                                     */
  /* ----------------------------------------------------------------------- */

  /** A created ticket shows up in its creator's list, and nobody else's list
      changes. */
  lemma CreateTicketListed(s: Store, me: Id, other: Id, form: TicketForm, file: Upload)
    requires IdsBelowNext(s)
    requires CreateTicket(s, me, form, file).Ok?
    requires other != me
    ensures OwnedBy(CreateTicket(s, me, form, file).value, me) == OwnedBy(s, me) + {s.nextTicket}
    ensures OwnedBy(CreateTicket(s, me, form, file).value, other) == OwnedBy(s, other)
  {
    var s' := CreateTicket(s, me, form, file).value;
    assert s.nextTicket !in s.tickets;
    assert forall t :: t in OwnedBy(s', other) ==> t in OwnedBy(s, other);
  }

  /** A subject of 80 characters keeps exactly its first 50. */
  lemma LongSubjectTruncated(s: Store, me: Id, form: TicketForm, file: Upload)
    requires |form.subject| == 80 && !Attached(file)
    ensures CreateTicket(s, me, form, file).Ok?
    ensures CreateTicket(s, me, form, file).value.tickets[s.nextTicket].subject == form.subject[..50]
  {
  }

  /* ----------------------------------------------------------------------- */
  /* Messages                                                                */
  /* ----------------------------------------------------------------------- */

  /** Sending is not owner-gated, and the sender never picks the recipient:
      two users sending on the same ticket both address its owner, and an
      owner writing on their own ticket addresses themselves. */
  lemma RecipientIsAlwaysOwner(s: Store, a: Id, b: Id, tid: Id, body: string)
    requires tid in s.tickets
    ensures SendMessage(s, a, tid, body).Ok? && SendMessage(s, b, tid, body).Ok?
    ensures SendMessage(s, a, tid, body).value.messages[s.nextMessage].recipient
         == SendMessage(s, b, tid, body).value.messages[s.nextMessage].recipient
         == s.tickets[tid].owner
  {
  }

  /** Sending adds one message to the ticket's thread and to no other thread. */
  lemma SendMessageExtendsThread(s: Store, me: Id, tid: Id, other: Id, body: string)
    requires IdsBelowNext(s)
    requires tid in s.tickets && other != tid
    ensures ThreadOf(SendMessage(s, me, tid, body).value, tid) == ThreadOf(s, tid) + {s.nextMessage}
    ensures ThreadOf(SendMessage(s, me, tid, body).value, other) == ThreadOf(s, other)
  {
    var s' := SendMessage(s, me, tid, body).value;
    assert s.nextMessage !in s.messages;
    assert forall k :: k in ThreadOf(s', other) ==> k in ThreadOf(s, other);
  }

  /* ----------------------------------------------------------------------- */
  /* Deletion                                                                */
  /* ----------------------------------------------------------------------- */

  /** The cascade empties the deleted ticket's thread and leaves every other
      thread and every other owner's list as it was. */
  lemma DeleteCascades(s: Store, me: Id, tid: Id, other: Id, removeFails: bool)
    requires DeleteTicket(s, me, tid, removeFails).Ok?
    requires other != tid
    ensures ThreadOf(DeleteTicket(s, me, tid, removeFails).value, tid) == {}
    ensures ThreadOf(DeleteTicket(s, me, tid, removeFails).value, other) == ThreadOf(s, other)
    ensures OwnedBy(DeleteTicket(s, me, tid, removeFails).value, me) == OwnedBy(s, me) - {tid}
  {
    var s' := DeleteTicket(s, me, tid, removeFails).value;
    assert forall k :: k in ThreadOf(s, other) ==> k in ThreadOf(s', other);
  }

  /** A second deletion of the same ticket finds nothing. */
  lemma DeleteTwiceNotFound(s: Store, me: Id, tid: Id, f1: bool, f2: bool)
    requires DeleteTicket(s, me, tid, f1).Ok?
    ensures DeleteTicket(DeleteTicket(s, me, tid, f1).value, me, tid, f2) == Err(NotFound)
  {
  }

  /** A missing attachment file does not stop the owner's deletion, and the
      upload directory is then left as it was. */
  lemma DeleteToleratesMissingFile(s: Store, me: Id, tid: Id, removeFails: bool)
    requires tid in s.tickets && s.tickets[tid].owner == me
    requires HasAttachment(s.tickets[tid]) && s.tickets[tid].attachment.value !in s.uploads
    ensures DeleteTicket(s, me, tid, removeFails).Ok?
    ensures DeleteTicket(s, me, tid, removeFails).value.uploads == s.uploads
  {
  }

  /* ----------------------------------------------------------------------- */
  /* A whole session                                                         */
  /* ----------------------------------------------------------------------- */

  lemma FirstRegistration(email: string, password: string, hash: string -> string) returns (s1: Store)
    requires email != [] && password != []
    ensures Register(Empty(), email, password, hash) == Ok(s1)
    ensures s1.tickets == map[] && s1.messages == map[] && s1.uploads == {}
    ensures s1.nextTicket == 1 && s1.nextMessage == 1
  {
    s1 := Register(Empty(), email, password, hash).value;
  }

  lemma FirstTicket(s1: Store, form: TicketForm, file: Upload) returns (s2: Store)
    requires s1.tickets == map[] && s1.messages == map[] && s1.uploads == {}
    requires s1.nextTicket == 1 && s1.nextMessage == 1
    requires file.filename != [] && Attachments.ExtensionAllowed(file.filename)
    ensures CreateTicket(s1, 1, form, file) == Ok(s2)
    ensures s2.tickets.Keys == {1} && s2.tickets[1].owner == 1 && s2.tickets[1].status == "Aberto"
    ensures s2.tickets[1].attachment == Some(file.storedName) && s2.uploads == {file.storedName}
    ensures s2.messages == map[] && s2.nextMessage == 1
    ensures OwnedBy(s2, 1) == {1}
  {
    s2 := CreateTicket(s1, 1, form, file).value;
    assert s2.tickets.Keys == {1};
  }

  lemma FirstMessage(s2: Store, body: string) returns (s3: Store)
    requires s2.tickets.Keys == {1} && s2.tickets[1].owner == 1
    requires s2.messages == map[] && s2.nextMessage == 1
    ensures SendMessage(s2, 1, 1, body) == Ok(s3)
    ensures s3.tickets == s2.tickets && s3.uploads == s2.uploads
    ensures s3.messages == map[1 := Message(1, 1, body, 1)]
    ensures ThreadOf(s3, 1) == {1}
  {
    s3 := SendMessage(s2, 1, 1, body).value;
    assert s3.messages.Keys == {1};
  }

  lemma FirstDeletion(s3: Store) returns (s4: Store)
    requires s3.tickets.Keys == {1} && s3.tickets[1].owner == 1 && HasAttachment(s3.tickets[1])
    requires s3.messages.Keys == {1} && s3.messages[1].ticket == 1
    ensures DeleteTicket(s3, 1, 1, false) == Ok(s4)
    ensures s4.tickets == map[] && s4.messages == map[]
    ensures s4.uploads == s3.uploads - {s3.tickets[1].attachment.value}
    ensures OwnedBy(s4, 1) == {} && ThreadOf(s4, 1) == {}
  {
    s4 := DeleteTicket(s3, 1, 1, false).value;
    assert s4.tickets.Keys == {};
    assert s4.messages.Keys == {};
  }

  /** A whole session on a fresh store: a user registers, opens a ticket with
      an accepted attachment whose sanitised name is not empty, writes on it
      and deletes it. Their list then holds
      the one ticket, with status "Aberto", and the thread the one message, sent
      by them; after the deletion the list and the thread are empty and the
      attachment file is gone. */
  lemma Session(email: string, password: string, hash: string -> string,
                form: TicketForm, file: Upload, body: string)
    returns (s1: Store, s2: Store, s3: Store, s4: Store)
    requires email != [] && password != []
    requires file.filename != [] && Attachments.ExtensionAllowed(file.filename)
    requires file.storedName != []
    ensures Register(Empty(), email, password, hash) == Ok(s1)
    ensures CreateTicket(s1, 1, form, file) == Ok(s2)
    ensures OwnedBy(s2, 1) == {1}
    ensures s2.tickets[1].status == "Aberto" && file.storedName in s2.uploads
    ensures SendMessage(s2, 1, 1, body) == Ok(s3)
    ensures ThreadOf(s3, 1) == {1} && s3.messages[1].sender == 1
    ensures DeleteTicket(s3, 1, 1, false) == Ok(s4)
    ensures OwnedBy(s4, 1) == {} && ThreadOf(s4, 1) == {}
    ensures file.storedName !in s4.uploads
  {
    s1 := FirstRegistration(email, password, hash);
    s2 := FirstTicket(s1, form, file);
    s3 := FirstMessage(s2, body);
    s4 := FirstDeletion(s3);
  }

  /** The session above for alice@example.com with notes.txt attached. */
  lemma AliceSession(hash: string -> string) returns (s1: Store, s2: Store, s3: Store, s4: Store)
    ensures Register(Empty(), "alice@example.com", "pw123", hash) == Ok(s1)
    ensures CreateTicket(s1, 1, TicketForm("Suporte", 1, "Problema", "Impressora", "nao imprime"),
                         Upload("notes.txt", "notes.txt")) == Ok(s2)
    ensures SendMessage(s2, 1, 1, "Hello") == Ok(s3)
    ensures DeleteTicket(s3, 1, 1, false) == Ok(s4)
    ensures OwnedBy(s2, 1) == {1} && s2.tickets[1].status == "Aberto"
    ensures "notes.txt" in s2.uploads
    ensures ThreadOf(s3, 1) == {1} && s3.messages[1].sender == 1
    ensures OwnedBy(s4, 1) == {} && "notes.txt" !in s4.uploads
  {
    Attachments.AcceptsTxt();
    s1, s2, s3, s4 := Session("alice@example.com", "pw123", hash,
      TicketForm("Suporte", 1, "Problema", "Impressora", "nao imprime"),
      Upload("notes.txt", "notes.txt"), "Hello");
  }
}
