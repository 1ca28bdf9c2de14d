/**
 * The pure decisions main.tsx takes on what the sync service returns: which
 * cursor to keep, whether an envelope is a success, and which message a
 * failed HTTP reply is reported with.
 */
module SyncApi {
  import opened Types
  import opened Decimal

  /** getLastCursor: the server's cursor when it sent one, otherwise the saved one.
      An empty server cursor never replaces a saved cursor. */
  function GetLastCursor(newCursor: string, savedCursor: string): (r: string)
    ensures newCursor != "" ==> r == newCursor
    ensures newCursor == "" ==> r == savedCursor
    ensures r == "" <==> newCursor == "" && savedCursor == ""
  {
    if newCursor != "" then newCursor else savedCursor
  }

  const CallApiFailed := "call api failed"

  /** The text of a failed envelope: "WuCai: <code> <message or the default>". */
  function ErrorText(st: ApiStatus): string {
    Prefix + IntToString(st.code) + " " + (if st.message != "" then st.message else CallApiFailed)
  }

  /** checkResponseBody's verdict; None is a null or missing body. */
  function CheckResponseBody(rsp: Option<ApiStatus>): (ret: ResponseCheckRet)
    ensures ret.isOk <==> rsp.Some? && rsp.value.code == 1
    ensures rsp.None? ==> ret == ResponseCheckRet(false, Prefix + CallApiFailed, 1)
    ensures ret.isOk ==> ret.msg == "" && ret.errCode == 1
    ensures rsp.Some? && !ret.isOk ==> ret.errCode == rsp.value.code && ret.msg == ErrorText(rsp.value)
  {
    if rsp.None? then ResponseCheckRet(false, Prefix + CallApiFailed, 1)
    else if rsp.value.code == 1 then ResponseCheckRet(true, "", 1)
    else ResponseCheckRet(false, ErrorText(rsp.value), rsp.value.code)
  }

  /** The error codes that mean the stored token is no longer valid. */
  predicate ClearsToken(rsp: Option<ApiStatus>) {
    rsp.Some? && (rsp.value.code == 10000 || rsp.value.code == 10100 || rsp.value.code == 10101)
  }

  /** A reply that reached the service and whose envelope rejects the token. */
  predicate RejectsToken<T>(reply: Option<HttpResponse<T>>) {
    reply.Some? && reply.value.ok && ClearsToken(StatusOf(reply.value.body))
  }

  /** The token is cleared only on a failed envelope, never on success or a missing body. */
  lemma ClearsTokenOnlyOnFailure(rsp: Option<ApiStatus>)
    requires ClearsToken(rsp)
    ensures !CheckResponseBody(rsp).isOk && CheckResponseBody(rsp).errCode == rsp.value.code
  {
  }

  /** The status of an envelope, if there is a body. */
  function StatusOf<T>(body: Option<Envelope<T>>): (r: Option<ApiStatus>)
    ensures r.Some? <==> body.Some?
    ensures body.Some? ==> r.value == body.value.status
  {
    if body.None? then None else Some(body.value.status)
  }

  /** getErrorMessageFromResponse; None is a fetch that threw. */
  function GetErrorMessageFromResponse<T>(response: Option<HttpResponse<T>>): (r: string)
    ensures response.None? ==> r == "Can't connect to server"
    ensures response.Some? && response.value.status == 409 ==> r == "Sync in progress initiated by different client"
    ensures response.Some? && response.value.status == 417 ==> r == "Obsidian export is locked. Wait for an hour."
    ensures response.Some? && response.value.status != 409 && response.value.status != 417 ==>
              r == response.value.statusText
  {
    if response.Some? && response.value.status == 409 then "Sync in progress initiated by different client"
    else if response.Some? && response.value.status == 417 then "Obsidian export is locked. Wait for an hour."
    else if response.Some? then response.value.statusText
    else "Can't connect to server"
  }

  // ---- Reading the code back out of a failure message ----

  /** The longest prefix of digits. */
  function TakeDigits(s: string): (r: string)
    ensures |r| <= |s| && r == s[..|r|]
    ensures forall i :: 0 <= i < |r| ==> IsDigit(r[i])
    ensures |r| < |s| ==> !IsDigit(s[|r|])
  {
    if s != [] && IsDigit(s[0]) then [s[0]] + TakeDigits(s[1..]) else []
  }

  const Prefix := "WuCai: "

  /** The code a message of the form ErrorText states, if it has that form. */
  function ReadErrorCode(msg: string): Option<int> {
    if |msg| < |Prefix| || msg[..|Prefix|] != Prefix then None else ReadSigned(msg[|Prefix|..])
  }

  /** An optional minus sign followed by digits, at the start of s. */
  function ReadSigned(s: string): Option<int> {
    if |s| > 0 && s[0] == '-' then
      var digits := TakeDigits(s[1..]);
      if digits == [] then None else Some(-(DigitsValue(digits) as int))
    else
      var digits := TakeDigits(s);
      if digits == [] then None else Some(DigitsValue(digits))
  }

  lemma {:induction false} TakeDigitsOfNumber(n: nat, tail: string)
    requires tail == [] || !IsDigit(tail[0])
    ensures TakeDigits(NatToString(n) + tail) == NatToString(n)
  {
    TakeDigitsPrefix(NatToString(n), tail);
  }

  lemma {:induction false} TakeDigitsPrefix(d: string, tail: string)
    requires forall i :: 0 <= i < |d| ==> IsDigit(d[i])
    requires tail == [] || !IsDigit(tail[0])
    ensures TakeDigits(d + tail) == d
  {
    if d == [] {
      assert d + tail == tail;
    } else {
      TakeDigitsPrefix(d[1..], tail);
      assert (d + tail)[1..] == d[1..] + tail;
      assert [d[0]] + d[1..] == d;
    }
  }

  lemma ReadPrefixed(rest: string)
    ensures ReadErrorCode(Prefix + rest) == ReadSigned(rest)
  {
    var msg := Prefix + rest;
    assert msg[..|Prefix|] == Prefix && msg[|Prefix|..] == rest;
  }

  lemma ReadSignedNumber(n: int, tail: string)
    requires tail == [] || !IsDigit(tail[0])
    ensures ReadSigned(IntToString(n) + tail) == Some(n)
  {
    if n < 0 {
      assert IntToString(n) == "-" + NatToString(-n);
      assert IntToString(n) + tail == "-" + (NatToString(-n) + tail);
      ReadNegativeText(-n, tail);
    } else {
      assert IntToString(n) == NatToString(n);
      ReadNaturalText(n, tail);
    }
  }

  lemma ReadNaturalText(a: nat, tail: string)
    requires tail == [] || !IsDigit(tail[0])
    ensures ReadSigned(NatToString(a) + tail) == Some(a)
  {
    var d := NatToString(a);
    TakeDigitsOfNumber(a, tail);
    DigitsValueOfNatToString(a);
    assert (d + tail)[0] == d[0];
    ReadNoMinus(d + tail);
  }

  lemma ReadNegativeText(a: nat, tail: string)
    requires tail == [] || !IsDigit(tail[0])
    ensures ReadSigned("-" + (NatToString(a) + tail)) == Some(-(a as int))
  {
    TakeDigitsOfNumber(a, tail);
    DigitsValueOfNatToString(a);
    ReadMinus(NatToString(a) + tail);
  }

  lemma ReadMinus(rest: string)
    ensures var d := TakeDigits(rest);
            ReadSigned("-" + rest) == if d == [] then None else Some(-(DigitsValue(d) as int))
  {
    assert ("-" + rest)[1..] == rest;
  }

  lemma ReadNoMinus(s: string)
    requires s != [] && IsDigit(s[0])
    ensures var d := TakeDigits(s);
            ReadSigned(s) == if d == [] then None else Some(DigitsValue(d))
  {
  }

  /** A failure message states its error code: ReadErrorCode inverts ErrorText. */
  lemma ErrorTextStatesCode(st: ApiStatus)
    ensures ReadErrorCode(ErrorText(st)) == Some(st.code)
  {
    var tail := " " + (if st.message != "" then st.message else CallApiFailed);
    assert ErrorText(st) == Prefix + (IntToString(st.code) + tail);
    ReadPrefixed(IntToString(st.code) + tail);
    ReadSignedNumber(st.code, tail);
  }
}
