/**
 The three record kinds of the helpdesk (app.py:20-55) and the in-memory store
 that stands for the database tables and the upload directory.
 */
module Records {

  datatype Option<T> = None | Some(value: T)

  /** The outcomes a request can fail with. */
  datatype Error =
    | EmptyField           // registration with an empty email or password
    | DuplicateEmail       // registration with an email already stored
    | UnsupportedFileType  // attachment outside the extension allow-list
    | NotFound             // no ticket with that id (HTTP 404)
    | Forbidden            // the caller does not own the ticket (HTTP 403)

  /** A request either produces a value or fails; a failure carries no store,
      so the store in force before the request stays in force. */
  datatype Result<T> = Ok(value: T) | Err(error: Error)

  type Id = nat

  /** `User`: the email and the stored password hash, never the password. */
  datatype User = User(email: string, passwordHash: string)

  /** `Chamado`: a support ticket owned by the user `owner` (`cliente_id`).
      `attachment` is the stored file name (`arquivo_anexo`, nullable). */
  datatype Ticket = Ticket(
    owner: Id,
    requestType: string,   // tipo_pedido
    priority: int,         // prioridade_do_chamado
    kind: string,          // tipo_do_chamado
    subject: string,       // assunto_do_chamado
    description: string,   // descricao_do_chamado
    attachment: Option<string>,
    status: string)

  /** `Mensagem`: a message on ticket `ticket` (`chamado_id`) from `sender`
      (`remetente_id`) to `recipient` (`destinatario_id`). */
  datatype Message = Message(sender: Id, recipient: Id, body: string, ticket: Id)

  /** The three tables keyed by id, the next id each table hands out, and the
      names of the files present in the upload directory. */
  datatype Store = Store(
    users: map<Id, User>,
    tickets: map<Id, Ticket>,
    messages: map<Id, Message>,
    uploads: set<string>,
    nextUser: Id,
    nextTicket: Id,
    nextMessage: Id)

  /** The status every new ticket gets; no handler changes it. */
  const InitialStatus: string := "Aberto"

  /** Subjects keep at most this many characters. */
  const SubjectLimit: nat := 50

  /** A fresh database with an existing, empty upload directory; ids start at 1. */
  function Empty(): Store
  {
    Store(map[], map[], map[], {}, 1, 1, 1)
  }

  /** Some stored user already has this email (`filter_by(email=...).first()`). */
  predicate EmailTaken(s: Store, email: string)
  {
    exists id :: id in s.users && s.users[id].email == email
  }

  /** Python truthiness of `arquivo_anexo`: present and not the empty name. */
  predicate HasAttachment(t: Ticket)
  {
    t.attachment.Some? && t.attachment.value != ""
  }

  /** `m'` is `m` with one entry `id := v` added and every other key untouched. */
  ghost predicate AddsEntry<V>(m: map<Id, V>, m': map<Id, V>, id: Id, v: V)
  {
    && id in m'
    && m'[id] == v
    && (forall k :: k != id ==> (k in m' <==> k in m))
    && (forall k :: k != id && k in m ==> m'[k] == m[k])
  }

  /* ----------------------------------------------------------------------- */
  /* Store invariant                                                         */
  /* ----------------------------------------------------------------------- */

  /** Every id in use lies below the table's next id, so new ids are fresh. */
  ghost predicate IdsBelowNext(s: Store)
  {
    && (forall id :: id in s.users ==> id < s.nextUser)
    && (forall id :: id in s.tickets ==> id < s.nextTicket)
    && (forall id :: id in s.messages ==> id < s.nextMessage)
  }

  /** The unique constraint on `User.email` (app.py:22). */
  ghost predicate UniqueEmails(s: Store)
  {
    forall a, b :: a in s.users && b in s.users && a != b ==> s.users[a].email != s.users[b].email
  }

  /** The foreign keys: owners, senders and recipients are users, and every
      message hangs off a stored ticket. */
  ghost predicate ReferencesResolve(s: Store)
  {
    && (forall t :: t in s.tickets ==> s.tickets[t].owner in s.users)
    && (forall m :: m in s.messages ==>
          && s.messages[m].ticket in s.tickets
          && s.messages[m].sender in s.users
          && s.messages[m].recipient in s.users)
  }

  ghost predicate Valid(s: Store)
  {
    IdsBelowNext(s) && UniqueEmails(s) && ReferencesResolve(s)
  }

  lemma EmptyValid()
    ensures Valid(Empty())
  {
  }
}
