/**
 * Preparing an SMS through the Aligo gateway: the configuration check, the
 * form fields of the request (credentials, domestic receiver number, test-mode
 * flag) and the reading of the gateway's `result_code`. Rendering the template
 * and the HTTP POST are effects whose answers are given as parameters.
 */
module Aligo {
  import opened Wrappers

  /** The environment variables `send` reads. */
  datatype AligoEnv = AligoEnv(
    proxy: Option<string>,
    identifier: Option<string>,
    secret: Option<string>,
    sender: Option<string>,
    nodeEnv: Option<string>)

  datatype FormData = FormData(
    userId: string,
    key: string,
    sender: string,
    receiver: string,
    msg: string,
    testmodeYn: string)

  datatype Request = Request(httpMethod: string, url: string, proxy: string, json: bool, form: FormData)

  /** The `result_code` member of the gateway's JSON answer. */
  datatype ResultCode = Number(n: int) | Text(s: string) | Missing

  datatype SendError = CannotSend

  /** What `send` does to the outside world, in order. */
  datatype Effect = RenderTemplate(template: string) | Post(request: Request)

  datatype SendRun = SendRun(effects: seq<Effect>, outcome: Result<bool, SendError>)

  const GatewayUrl: string := "http://apis.aligo.in"

  /** A variable counts as set when it is present and not the empty string. */
  predicate IsSet(v: Option<string>)
  {
    v.Some? && v.value != ""
  }

  predicate Configured(env: AligoEnv)
  {
    IsSet(env.proxy) && IsSet(env.identifier) && IsSet(env.secret) && IsSet(env.sender)
  }

  /** `phone.substr(3)`: the string without its first three characters. */
  function DropThree(phone: string): (r: string)
    ensures |phone| >= 3 ==> r == phone[3..]
    ensures |phone| < 3 ==> r == ""
  {
    if |phone| <= 3 then "" else phone[3..]
  }

  /** The receiver field: the international `+82` prefix replaced by the domestic `0`. */
  function Receiver(phone: string): (r: string)
    ensures |r| >= 1 && r[0] == '0'
    ensures |r| == if |phone| >= 3 then |phone| - 2 else 1
    ensures forall i :: 1 <= i < |r| ==> r[i] == phone[i + 2]
  {
    "0" + DropThree(phone)
  }

  lemma ReceiverOfInternational(rest: string)
    ensures Receiver("+82" + rest) == "0" + rest
  {
    assert ("+82" + rest)[3..] == rest;
  }

  lemma ReceiverExample()
    ensures Receiver("+821012345678") == "01012345678"
  {
    ReceiverOfInternational("1012345678");
  }

  /** `testmode_yn`: real delivery only in production. */
  function TestMode(nodeEnv: Option<string>): (r: string)
    ensures r == "false" <==> nodeEnv == Some("prod")
    ensures r == "true" <==> nodeEnv != Some("prod")
  {
    if nodeEnv != Some("prod") then "true" else "false"
  }

  /** `result_code === 1`: only the number one is a success. */
  predicate Delivered(code: ResultCode)
  {
    code == Number(1)
  }

  function BuildRequest(env: AligoEnv, phone: string, msg: string): (req: Request)
    requires Configured(env)
    ensures req.form.userId == env.identifier.value
    ensures req.form.key == env.secret.value
    ensures req.form.sender == env.sender.value
    ensures req.proxy == env.proxy.value
    ensures req.form.msg == msg
  {
    Request("POST", GatewayUrl, env.proxy.value, true,
      FormData(env.identifier.value, env.secret.value, env.sender.value,
        Receiver(phone), msg, TestMode(env.nodeEnv)))
  }

  /**
   * `send`: check the configuration, render the template (its text is
   * `rendered`), post the form, and report whether the gateway answered
   * `result_code` 1 (its answer is `answer`).
   */
  function Send(env: AligoEnv, phone: string, template: string, rendered: string, answer: ResultCode)
    : (run: SendRun)
    ensures !Configured(env) ==> run == SendRun([], Failure(CannotSend))
    ensures Configured(env) ==>
      |run.effects| == 2 && run.effects[0] == RenderTemplate(template)
      && run.effects[1].Post? && run.effects[1].request == BuildRequest(env, phone, rendered)
    ensures Configured(env) ==> run.outcome == Success(answer == Number(1))
  {
    if !Configured(env) then SendRun([], Failure(CannotSend))
    else
      var req := BuildRequest(env, phone, rendered);
      SendRun([RenderTemplate(template), Post(req)], Success(Delivered(answer)))
  }

  /** The posted form carries the receiver rewrite and the test-mode flag of the environment. */
  lemma SentForm(env: AligoEnv, phone: string, template: string, rendered: string, answer: ResultCode)
    requires Configured(env)
    ensures var form := Send(env, phone, template, rendered, answer).effects[1].request.form;
      && form.receiver[0] == '0'
      && (|phone| >= 3 ==> form.receiver == "0" + phone[3..])
      && (form.testmodeYn == "false" <==> env.nodeEnv == Some("prod"))
      && form.userId == env.identifier.value && form.key == env.secret.value && form.sender == env.sender.value
  {
  }
}
