/** The request and response records of the `/ask` endpoint. */
module Schema {
  datatype Document = Document(id: string, title: string, content: string, createdAt: string)

  datatype AskRequest = AskRequest(documents: seq<Document>, question: string)

  datatype AskResponse = AskResponse(answer: string, sources: seq<string>)
}
