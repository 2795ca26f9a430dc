/**
 * The message exchanged between chat clients and the server (es.ubu.lsi.common.ChatMessage,
 * used through getId, getType and getMessage).
 */
module Protocol {

  /** ChatMessage.MessageType. */
  datatype MessageType = Message | Logout | Ban | Unban | Shutdown

  /**
   * A chat message: the sender's session id (-1 for the server itself), its type
   * and its text.
   */
  datatype ChatMessage = ChatMessage(id: int, kind: MessageType, text: string)

  /** The id the server puts on messages it originates. */
  const ServerId: int := -1
}
