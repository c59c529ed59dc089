/** Submission of a record to the external form-filling webhook, shared by
    both agents (`send_webhook` is the same in each; only the configured
    endpoint differs, and the endpoint is part of the HTTP exchange here). */
module Webhook {
  import opened Values

  /** What one JSON POST to the endpoint came back with: an HTTP response,
      or a transport failure (DNS, refused connection, timeout) with its
      description. */
  datatype HttpResult =
    | Response(statusCode: int, text: string)
    | TransportError(message: string)

  /** The dictionary `send_webhook` returns. Fields the source leaves out of
      the dictionary are `None` here. */
  datatype WebhookOutcome = WebhookOutcome(
    success: bool,
    statusCode: Option<int>,
    responseText: Option<string>,
    error: Option<string>,
    sentData: Dict)

  /** Maps the result of the single POST of `payload` to the reported outcome:
      success is exactly status 200, every other status is a non-success that
      keeps the status and body, a transport failure is a non-success that
      keeps its description, and the payload is always reported as sent. */
  function SendWebhook(payload: Dict, http: HttpResult): (w: WebhookOutcome)
    ensures w.sentData == payload
    ensures w.success <==> http.Response? && http.statusCode == 200
    ensures http.Response? ==>
      w.statusCode == Some(http.statusCode) && w.responseText == Some(http.text) && w.error.None?
    ensures http.TransportError? ==>
      w.error == Some(http.message) && w.statusCode.None? && w.responseText.None?
  {
    match http
    case Response(code, text) => WebhookOutcome(code == 200, Some(code), Some(text), None, payload)
    case TransportError(message) => WebhookOutcome(false, None, None, Some(message), payload)
  }
}
