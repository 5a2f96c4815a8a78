/** The assistant message that parsing fills and streaming compares. */
module ChatMessage {
  datatype ToolCall = ToolCall(name: string, arguments: string, id: string)

  datatype Message = Message(reasoning: string, content: string, calls: seq<ToolCall>)

  const EMPTY := Message("", "", [])
}
