/** The JSON envelope every endpoint answers with, and the PHP values it carries. */
module Envelope {

  datatype Option<+T> = None | Some(value: T)

  /** `MCP_Endpoints::success` (HTTP 200 with a payload) or `MCP_Endpoints::error`
      (a WP_Error with a code and an HTTP status; the human-readable message is not modelled). */
  datatype Response<+T> = Ok(data: T) | Err(code: string, status: int)

  /** The status `MCP_Endpoints::error` uses when the caller gives none. */
  const BadRequest: int := 400
  const NotFound: int := 404

  /** A PHP value as stored in an option, a widget setting or a cron argument list. */
  datatype Value = Null | Bool(b: bool) | Int(i: int) | Str(s: string) | Arr(items: seq<Value>)
}
