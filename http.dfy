/** The JSON responses the handlers send: a status code and the body they pass to `res.json`. */
module Http {
  import opened Registry
  import opened Store

  datatype Body =
    | ErrorBody(error: string)                          // { error }
    | ErrorWithDetails(error: string, details: seq<string>)  // { error, details: [...] }
    | ErrorWithCause(error: string, cause: string)      // { error, details: error.message }
    | Success(message: string)                          // { success: true, message }
    | Added(id: int)                                    // { success: true, id: insertId }
    | TableRows(rows: Rows)                             // the rows of `SELECT *`
    | RecordRow(key: int, row: Row)                     // `rows[0]`
    | SearchStatement(sql: string, params: seq<string>) // the query whose rows are sent

  datatype Response = Response(status: int, body: Body)

  function Error(status: int, message: string): Response
  {
    Response(status, ErrorBody(message))
  }
}
