/** The request gating of the device endpoints: header validation, the
    setup (registration) handler and the display handler. The device
    database is an abstract set of registered device IDs, and the bitmap
    is opaque bytes supplied by the caller (None when generating it
    failed). */
module Handlers {
  import opened Wrappers
  import opened Base64

  const AccessToken := "your-secret-access-token"
  const DataUrlPrefix := "data:image/bmp;base64,"

  /** A request header as received: a name and raw value bytes. */
  datatype Header = Header(name: string, value: seq<byte>)

  datatype AuthFailure =
    | MissingId
    | InvalidIdFormat
    | MissingToken
    | InvalidTokenFormat
    | WrongToken
    | NotRegistered(deviceId: string)

  /** AuthError rejects the request; DbError stands for the internal error
      the display handler reports when the bitmap cannot be generated. */
  datatype AppError = AuthError(reason: AuthFailure) | DbError

  function Message(f: AuthFailure): string {
    match f
    case MissingId => "Missing ID header"
    case InvalidIdFormat => "Invalid ID header format"
    case MissingToken => "Missing Access-Token header"
    case InvalidTokenFormat => "Invalid Access-Token header format"
    case WrongToken => "Invalid Access-Token"
    case NotRegistered(id) => "Device " + id + " not registered"
  }

  function LowerAscii(c: char): char {
    if 'A' <= c <= 'Z' then (c as int + 32) as char else c
  }

  /** Header names compare without regard to ASCII case. */
  predicate SameName(a: string, b: string) {
    |a| == |b| && forall i :: 0 <= i < |a| ==> LowerAscii(a[i]) == LowerAscii(b[i])
  }

  /** The first value given for header `name`. */
  function GetHeader(headers: seq<Header>, name: string): (r: Option<seq<byte>>)
    ensures r.None? <==> forall i :: 0 <= i < |headers| ==> !SameName(headers[i].name, name)
    ensures r.Some? ==>
      exists i :: 0 <= i < |headers| && SameName(headers[i].name, name) && headers[i].value == r.value &&
        forall j :: 0 <= j < i ==> !SameName(headers[j].name, name)
  {
    if |headers| == 0 then None
    else if SameName(headers[0].name, name) then Some(headers[0].value)
    else
      var r := GetHeader(headers[1..], name);
      assert forall i :: 1 <= i < |headers| ==> headers[i] == headers[1..][i - 1];
      if r.Some? then
        var k :| 0 <= k < |headers[1..]| && SameName(headers[1..][k].name, name) &&
          headers[1..][k].value == r.value &&
          forall j :: 0 <= j < k ==> !SameName(headers[1..][j].name, name);
        assert headers[k + 1] == headers[1..][k];
        r
      else r
  }

  /** A header value is text when every byte is visible ASCII or a tab. */
  predicate IsVisibleAscii(b: byte) {
    b == 9 || (32 <= b && b < 127)
  }

  /** `HeaderValue::to_str`. */
  function HeaderText(v: seq<byte>): (r: Option<string>)
    ensures r.Some? <==> forall i :: 0 <= i < |v| ==> IsVisibleAscii(v[i])
    ensures r.Some? ==> |r.value| == |v| && forall i :: 0 <= i < |v| ==> r.value[i] as int == v[i]
  {
    if forall i :: 0 <= i < |v| ==> IsVisibleAscii(v[i]) then
      Some(seq(|v|, i requires 0 <= i < |v| => v[i] as char))
    else None
  }

  /** validate_headers: the device ID, once the ID header is present and
      textual and the Access-Token header is present, textual and the
      configured token. The ID is examined before the token. */
  function ValidateHeaders(headers: seq<Header>): (r: Result<string, AppError>)
    ensures GetHeader(headers, "ID").None? ==> r == Err(AuthError(MissingId))
    ensures GetHeader(headers, "ID").Some? && HeaderText(GetHeader(headers, "ID").value).None? ==>
      r == Err(AuthError(InvalidIdFormat))
    ensures r.Ok? <==>
      && GetHeader(headers, "ID").Some?
      && HeaderText(GetHeader(headers, "ID").value).Some?
      && GetHeader(headers, "Access-Token").Some?
      && HeaderText(GetHeader(headers, "Access-Token").value) == Some(AccessToken)
    ensures r.Ok? ==> Some(r.value) == HeaderText(GetHeader(headers, "ID").value)
    ensures r.Err? ==> r.error.AuthError? && !r.error.reason.NotRegistered?
  {
    match GetHeader(headers, "ID")
    case None => Err(AuthError(MissingId))
    case Some(rawId) =>
      match HeaderText(rawId)
      case None => Err(AuthError(InvalidIdFormat))
      case Some(id) =>
        match GetHeader(headers, "Access-Token")
        case None => Err(AuthError(MissingToken))
        case Some(rawToken) =>
          match HeaderText(rawToken)
          case None => Err(AuthError(InvalidTokenFormat))
          case Some(token) =>
            if token != AccessToken then Err(AuthError(WrongToken)) else Ok(id)
  }

  /** With a usable ID, a token header that is not text, or any text other
      than the configured token, is rejected with its own reason. */
  lemma TokenFailures(headers: seq<Header>)
    requires GetHeader(headers, "ID").Some? && HeaderText(GetHeader(headers, "ID").value).Some?
    ensures GetHeader(headers, "Access-Token").None? ==>
      ValidateHeaders(headers) == Err(AuthError(MissingToken))
    ensures GetHeader(headers, "Access-Token").Some? &&
            HeaderText(GetHeader(headers, "Access-Token").value).None? ==>
      ValidateHeaders(headers) == Err(AuthError(InvalidTokenFormat))
    ensures GetHeader(headers, "Access-Token").Some? &&
            HeaderText(GetHeader(headers, "Access-Token").value).Some? &&
            HeaderText(GetHeader(headers, "Access-Token").value) != Some(AccessToken) ==>
      ValidateHeaders(headers) == Err(AuthError(WrongToken))
  {
  }

  /** The headers a device sends: its ID and the access token, as text. */
  function Credentials(id: seq<byte>, token: seq<byte>): seq<Header> {
    [Header("ID", id), Header("Access-Token", token)]
  }

  function TextBytes(s: string): (r: seq<byte>)
    requires forall i :: 0 <= i < |s| ==> s[i] as int < 256
  {
    seq(|s|, i requires 0 <= i < |s| => s[i] as int)
  }

  lemma TokenBytesAreText()
    ensures forall i :: 0 <= i < |AccessToken| ==> AccessToken[i] as int < 256
    ensures HeaderText(TextBytes(AccessToken)) == Some(AccessToken)
  {
    assert forall i :: 0 <= i < |AccessToken| ==> 'a' <= AccessToken[i] <= 'z' || AccessToken[i] == '-';
    var b := TextBytes(AccessToken);
    assert forall i :: 0 <= i < |b| ==> IsVisibleAscii(b[i]);
    var t := HeaderText(b).value;
    assert |t| == |AccessToken| && forall i :: 0 <= i < |t| ==> t[i] == AccessToken[i];
    assert t == AccessToken;
  }

  lemma CredentialHeaders(id: seq<byte>, token: seq<byte>, extra: seq<Header>)
    ensures GetHeader(Credentials(id, token) + extra, "ID") == Some(id)
    ensures GetHeader(Credentials(id, token) + extra, "Access-Token") == Some(token)
  {
    var hs := Credentials(id, token) + extra;
    assert hs[0] == Header("ID", id) && hs[1..][0] == Header("Access-Token", token);
    assert SameName("ID", "ID");
    assert !SameName("ID", "Access-Token");
    assert SameName("Access-Token", "Access-Token");
  }

  /** A device presenting a textual ID and the configured token is
      accepted under that ID, whatever headers follow. */
  lemma ValidCredentialsAccepted(id: seq<byte>, extra: seq<Header>)
    requires forall i :: 0 <= i < |id| ==> IsVisibleAscii(id[i])
    ensures forall i :: 0 <= i < |AccessToken| ==> AccessToken[i] as int < 256
    ensures var hs := Credentials(id, TextBytes(AccessToken)) + extra;
            ValidateHeaders(hs).Ok? && Some(ValidateHeaders(hs).value) == HeaderText(id)
  {
    TokenBytesAreText();
    CredentialHeaders(id, TextBytes(AccessToken), extra);
  }

  // ----- setup -----

  datatype SetupResponse = SetupResponse(message: string, deviceId: string)

  function RegisteredMessage(id: string): string {
    "Device " + id + " registered successfully"
  }

  function UpdatedMessage(id: string): string {
    "Device " + id + " registration updated"
  }

  /** setup_handler as written: the device is registered first and only
      then looked up, so it is never reported as new. */
  function SetupHandler(devices: set<string>, headers: seq<Header>)
    : (r: (set<string>, Result<SetupResponse, AppError>))
    ensures ValidateHeaders(headers).Err? ==> r == (devices, Err(ValidateHeaders(headers).error))
    ensures ValidateHeaders(headers).Ok? ==>
      var id := ValidateHeaders(headers).value;
      r.0 == devices + {id} && r.1 == Ok(SetupResponse(UpdatedMessage(id), id))
  {
    match ValidateHeaders(headers)
    case Err(e) => (devices, Err(e))
    case Ok(id) =>
      var registered := devices + {id};
      var isNew := id !in registered;
      var message := if isNew then RegisteredMessage(id) else UpdatedMessage(id);
      (registered, Ok(SetupResponse(message, id)))
  }

  /** The discrepancy: a device never seen before is told its registration
      was updated. */
  lemma FreshDeviceReportedAsUpdated(devices: set<string>, headers: seq<Header>)
    requires ValidateHeaders(headers).Ok? && ValidateHeaders(headers).value !in devices
    ensures var id := ValidateHeaders(headers).value;
            SetupHandler(devices, headers).1 == Ok(SetupResponse(UpdatedMessage(id), id))
    ensures SetupHandler(devices, headers).1 != SetupHandlerIntended(devices, headers).1
  {
    var id := ValidateHeaders(headers).value;
    assert RegisteredMessage(id)[|id| + 7..] != UpdatedMessage(id)[|id| + 7..];
  }

  /** setup_handler with the existence check taken before registering, as
      the two messages intend: "registered successfully" exactly for a
      device not registered before. */
  function SetupHandlerIntended(devices: set<string>, headers: seq<Header>)
    : (r: (set<string>, Result<SetupResponse, AppError>))
    ensures ValidateHeaders(headers).Err? ==> r == (devices, Err(ValidateHeaders(headers).error))
    ensures ValidateHeaders(headers).Ok? ==>
      var id := ValidateHeaders(headers).value;
      && r.0 == devices + {id}
      && r.1.Ok? && r.1.value.deviceId == id
      && (r.1.value.message == RegisteredMessage(id) <==> id !in devices)
      && (r.1.value.message == UpdatedMessage(id) <==> id in devices)
  {
    match ValidateHeaders(headers)
    case Err(e) => (devices, Err(e))
    case Ok(id) =>
      var isNew := id !in devices;
      assert RegisteredMessage(id)[|id| + 7..] != UpdatedMessage(id)[|id| + 7..];
      var message := if isNew then RegisteredMessage(id) else UpdatedMessage(id);
      (devices + {id}, Ok(SetupResponse(message, id)))
  }

  // ----- display -----

  datatype DisplayResponse = DisplayResponse(
    filename: string,
    imageUrl: string,
    imageUrlTimeout: nat,
    refreshRate: nat)

  /** display_handler: an accepted, registered device gets the bitmap as a
      base64 data URL; an unregistered one is refused before any bitmap is
      produced. */
  function DisplayHandler(devices: set<string>, headers: seq<Header>, bitmap: Option<seq<byte>>)
    : (r: Result<DisplayResponse, AppError>)
    ensures ValidateHeaders(headers).Err? ==> r == Err(ValidateHeaders(headers).error)
    ensures ValidateHeaders(headers).Ok? && ValidateHeaders(headers).value !in devices ==>
      r == Err(AuthError(NotRegistered(ValidateHeaders(headers).value)))
    ensures r.Ok? <==> ValidateHeaders(headers).Ok? && ValidateHeaders(headers).value in devices && bitmap.Some?
    ensures r.Ok? ==>
      && r.value.filename == "demo.bmp"
      && r.value.imageUrlTimeout == 0
      && r.value.refreshRate == 200
      && DataUrlPrefix <= r.value.imageUrl
      && Decode(r.value.imageUrl[|DataUrlPrefix|..]) == Some(bitmap.value)
  {
    match ValidateHeaders(headers)
    case Err(e) => Err(e)
    case Ok(id) =>
      if id !in devices then Err(AuthError(NotRegistered(id)))
      else
        match bitmap
        case None => Err(DbError)
        case Some(bmp) =>
          var url := DataUrlPrefix + Encode(bmp);
          RoundTrip(bmp);
          assert url[|DataUrlPrefix|..] == Encode(bmp);
          Ok(DisplayResponse("demo.bmp", url, 0, 200))
  }

  /** Once a device has gone through setup, display accepts the same
      headers. */
  lemma DisplayAfterSetup(devices: set<string>, headers: seq<Header>, bitmap: seq<byte>)
    requires SetupHandler(devices, headers).1.Ok?
    ensures DisplayHandler(SetupHandler(devices, headers).0, headers, Some(bitmap)).Ok?
  {
  }
}
