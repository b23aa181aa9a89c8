/** The flash message cookie: setFlash stores
    url.QueryEscape(message + "|" + type) and getFlash is meant to read it
    back. Also the query escaping of Go's net/url that both rely on. */
module Flash {
  import opened Results
  import opened Text

  /** A Go string: every char stands for one byte. */
  predicate IsByteString(s: string) {
    forall i :: 0 <= i < |s| ==> s[i] as int < 256
  }

  /** Bytes QueryEscape leaves alone: letters, digits and "-_.~". */
  predicate IsUnreserved(c: char) {
    ('a' <= c <= 'z') || ('A' <= c <= 'Z') || ('0' <= c <= '9')
    || c == '-' || c == '_' || c == '.' || c == '~'
  }

  predicate IsHex(c: char) {
    ('0' <= c <= '9') || ('a' <= c <= 'f') || ('A' <= c <= 'F')
  }

  function Unhex(c: char): (v: nat)
    requires IsHex(c)
    ensures v < 16
  {
    if '0' <= c <= '9' then c as int - '0' as int
    else if 'a' <= c <= 'f' then c as int - 'a' as int + 10
    else c as int - 'A' as int + 10
  }

  /** The upper-case hex digit QueryEscape writes. */
  function HexDigit(v: nat): (c: char)
    requires v < 16
    ensures IsHex(c) && Unhex(c) == v
  {
    if v < 10 then ('0' as int + v) as char else ('A' as int + v - 10) as char
  }

  /** The escape of one byte: itself, '+' for a space, or %XX. */
  function EscapeByte(c: char): (r: string)
    requires c as int < 256
  {
    if IsUnreserved(c) then [c]
    else if c == ' ' then "+"
    else ['%', HexDigit(c as int / 16), HexDigit(c as int % 16)]
  }

  /** url.QueryEscape. */
  function QueryEscape(s: string): (r: string)
    requires IsByteString(s)
    ensures forall i :: 0 <= i < |r| ==> IsUnreserved(r[i]) || r[i] == '+' || r[i] == '%' || IsHex(r[i])
  {
    if s == [] then [] else EscapeByte(s[0]) + QueryEscape(s[1..])
  }

  /** url.QueryUnescape: '+' is a space, "%XX" a byte; a '%' not followed
      by two hex digits is an error. */
  function QueryUnescape(s: string): (r: Option<string>)
    ensures r.Some? ==> IsByteString(s) ==> IsByteString(r.value)
    decreases |s|
  {
    if s == [] then Some([])
    else if s[0] == '%' then
      if |s| < 3 || !IsHex(s[1]) || !IsHex(s[2]) then None
      else match QueryUnescape(s[3..])
        case None => None
        case Some(rest) => Some([(Unhex(s[1]) * 16 + Unhex(s[2])) as char] + rest)
    else match QueryUnescape(s[1..])
      case None => None
      case Some(rest) => Some([if s[0] == '+' then ' ' else s[0]] + rest)
  }

  /** Unescaping undoes escaping. */
  lemma {:induction false} UnescapeEscape(s: string)
    requires IsByteString(s)
    ensures QueryUnescape(QueryEscape(s)) == Some(s)
  {
    if s != [] {
      UnescapeEscape(s[1..]);
      UnescapeEscapeByte(s[0], QueryEscape(s[1..]), s[1..]);
      assert s == [s[0]] + s[1..];
    }
  }

  /** Unescaping reads one escaped byte back and carries on with the rest. */
  lemma UnescapeEscapeByte(c: char, rest: string, tail: string)
    requires c as int < 256
    requires QueryUnescape(rest) == Some(tail)
    ensures QueryUnescape(EscapeByte(c) + rest) == Some([c] + tail)
  {
    var e := EscapeByte(c) + rest;
    if IsUnreserved(c) || c == ' ' {
      assert e[1..] == rest;
    } else {
      assert e[3..] == rest;
      assert (c as int / 16) * 16 + c as int % 16 == c as int;
    }
  }

  /** The cookie value setFlash writes. */
  function FlashValue(message: string, messageType: string): string
    requires IsByteString(message) && IsByteString(messageType)
  {
    QueryEscape(message + "|" + messageType)
  }

  /** Split the unescaped value at '|': exactly two parts are the message
      and its type, anything else is no message. */
  function ParseFlash(value: string): (string, string) {
    var parts := Split(value, "|");
    if |parts| != 2 then ("", "") else (parts[0], parts[1])
  }

  /** getFlash as written: the cookie's Value is set to "" (to delete the
      cookie) before it is unescaped and split, so the split sees "". */
  function GetFlashAsWritten(cookie: Option<string>): (string, string) {
    match cookie
    case None => ("", "")
    case Some(v) =>
      var blanked := "";
      ParseFlash(QueryUnescape(blanked).GetOr(""))
  }

  /** As written, no cookie ever yields a message. */
  lemma GetFlashAsWrittenIsAlwaysBlank(cookie: Option<string>)
    ensures GetFlashAsWritten(cookie) == ("", "")
  {
    if cookie.Some? {
      assert Split("", "|") == [""];
    }
  }

  /** getFlash as intended: parse the value the cookie was read with. */
  function GetFlash(cookie: Option<string>): (string, string) {
    match cookie
    case None => ("", "")
    case Some(v) => ParseFlash(QueryUnescape(v).GetOr(""))
  }

  /** The intended reading gives back what setFlash stored, for a message
      and type without '|'; the code as written loses every such message
      that is not empty. */
  lemma GetFlashReadsSetFlash(message: string, messageType: string)
    requires IsByteString(message) && IsByteString(messageType)
    requires '|' !in message && '|' !in messageType
    ensures GetFlash(Some(FlashValue(message, messageType))) == (message, messageType)
    ensures message != "" ==>
      GetFlashAsWritten(Some(FlashValue(message, messageType))) != (message, messageType)
  {
    var joined := message + "|" + messageType;
    assert IsByteString(joined) by {
      assert forall i :: 0 <= i < |joined| ==>
        joined[i] == (if i < |message| then message[i] else if i == |message| then '|' else messageType[i - |message| - 1]);
    }
    UnescapeEscape(joined);
    assert Join([message, messageType], "|") == joined by {
      assert [message, messageType][1..] == [messageType];
    }
    SplitJoin([message, messageType], '|');
    GetFlashAsWrittenIsAlwaysBlank(Some(FlashValue(message, messageType)));
  }
}
