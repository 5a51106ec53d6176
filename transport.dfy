/**
 * The chat transport as the bot sees it: the shape of an inbound message and the socket's
 * `sendMessage`, taken as an append-only outbox of `(target, text)` pairs.
 */
module Transport {
  import opened Wrappers
  import opened JsText

  /** `message.key`: the room the message came from (`remoteJid`), the group member who sent it
      (`participant`, "" when absent) and whether the bot's own account sent it. */
  datatype Key = Key(remoteJid: string, participant: string, fromMe: bool)

  /** `message.message`: the plain text (`conversation`) and the text of an extended text
      message; each is "" when absent. */
  datatype Content = Content(conversation: string, extendedText: string)

  /** An inbound message: `content` is `None` when `message.message` is missing, and
      `pushName` is "" when the sender has no display name. */
  datatype Message = Message(key: Key, content: Option<Content>, pushName: string)

  /** The sender's raw id: the group participant when there is one, else the room. */
  function RawSenderId(m: Message): string {
    if m.key.participant != "" then m.key.participant else m.key.remoteJid
  }

  /** The two suffixes the transport appends to a sender's id. */
  const PhoneSuffix: string := "@s.whatsapp.net"
  const LidSuffix: string := "@lid"

  /** The user id the bot stores: the raw sender id with the first "@s.whatsapp.net" removed,
      then the first "@lid" removed. */
  function SenderId(m: Message): string {
    RemoveFirst(RemoveFirst(RawSenderId(m), PhoneSuffix), LidSuffix)
  }

  /** A phone-number id keeps just the number, whichever suffix the transport gave it. */
  lemma SenderIdOfPhone(m: Message, phone: string)
    requires '@' !in phone
    requires RawSenderId(m) == phone + "@s.whatsapp.net" || RawSenderId(m) == phone + "@lid"
    ensures SenderId(m) == phone
  {
    var raw := RawSenderId(m);
    NotContainsShort(phone, "@lid", "");
    assert phone + "" == phone;
    if raw == phone + "@s.whatsapp.net" {
      RemoveFirstSuffix(phone, "@s.whatsapp.net", "");
      assert phone + "@s.whatsapp.net" + "" == raw;
    } else {
      NotContainsShort(phone, "@s.whatsapp.net", "@lid");
      RemoveFirstSuffix(phone, "@lid", "");
      assert phone + "@lid" + "" == raw;
    }
  }

  /** Only the first occurrence of each suffix goes: a doubled suffix leaves one copy. */
  lemma SenderIdRemovesFirstOnly(m: Message, phone: string)
    requires '@' !in phone
    requires RawSenderId(m) == phone + "@lid@lid"
    ensures SenderId(m) == phone + "@lid"
  {
    NotContainsShort(phone, "@s.whatsapp.net", "@lid@lid");
    RemoveFirstSuffix(phone, "@lid", "@lid");
    assert phone + "@lid@lid" == phone + "@lid" + "@lid";
  }

  /** `message.pushName || cleanUserId`: the name a new user is stored under and the name a
      reply signs with. */
  function DisplayName(m: Message): string {
    if m.pushName != "" then m.pushName else SenderId(m)
  }

  /** One `sock.sendMessage(target, { text })` call that the socket accepted. */
  datatype Outgoing = Outgoing(target: string, text: string)

  /** What one send of `text` to `target` delivers when the targets in `unreachable` reject
      every send: the message, or nothing. */
  function Deliver(unreachable: set<string>, target: string, text: string): (d: seq<Outgoing>)
    ensures |d| <= 1 && (d == [] <==> target in unreachable)
    ensures forall o :: o in d ==> o == Outgoing(target, text)
  {
    if target in unreachable then [] else [Outgoing(target, text)]
  }

  /** The socket: what it has delivered, and the targets it currently cannot deliver to
      (a `sendMessage` to one of them rejects). */
  class Outbox {
    var sent: seq<Outgoing>
    const unreachable: set<string>

    constructor (unreachable: set<string>)
      ensures sent == [] && this.unreachable == unreachable
    {
      sent := [];
      this.unreachable := unreachable;
    }

    /** What one send of `text` to `target` adds to the outbox. */
    function Delivery(target: string, text: string): seq<Outgoing>
      reads this
    {
      Deliver(unreachable, target, text)
    }

    /** `sock.sendMessage(target, { text })`; `ok` is false when the call rejects. */
    method Send(target: string, text: string) returns (ok: bool)
      modifies this
      ensures ok <==> target !in unreachable
      ensures sent == old(sent) + Delivery(target, text)
      ensures old(sent) <= sent
    {
      ok := target !in unreachable;
      if ok {
        sent := sent + [Outgoing(target, text)];
      }
    }
  }
}
