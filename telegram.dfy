/**
 * The notification side of ConnectionLogs: the text of a connect/disconnect
 * notice and its delivery to the Telegram Bot API, where every failure is
 * caught and written to the console instead of reaching the caller.
 *
 * The HTTP exchange is an input (`HttpOutcome`), JSON parsing of an error body
 * and URL encoding are function parameters, and the console is a sequence of
 * lines that `SendMessage` extends.
 */
module TelegramNotify {

  datatype Option<T> = None | Some(value: T)

  /** The two fields of the game's player object that the notice reads. */
  datatype Player = Player(playerName: string, steamId: nat)

  /** What `GetAsync` (and reading the body) did with the request. */
  datatype HttpOutcome =
    | Success                    // a 2xx status
    | HttpError(body: string)    // any other status, with the response body
    | Throws(exMessage: string)  // the request or reading its body raised

  /** `JsonDocument.Parse(body).RootElement.GetProperty("description").GetString()`. */
  datatype JsonOutcome =
    | Description(text: string)  // a JSON `null` description reads as ""
    | ParseFails(exMessage: string)

  /** How the try block of `SendMessage` ends: normally, with the lines it wrote, or by an exception. */
  datatype Attempt = Returned(lines: seq<string>) | Raised(exMessage: string)

  /** The state of the `Task` the async `SendMessage` returns. */
  datatype TaskStatus = RanToCompletion | Faulted(exMessage: string)

  const ProfileUrl := "https://steamcommunity.com/profiles/"
  const ApiUrl := "https://api.telegram.org/bot"
  const IpInfix := " with ip "
  const FailurePrefix := "Failed to send message to Telegram. Error: "
  const ExceptionPrefix := "Exception when trying to send message to Telegram.\n"

  // ---------------------------------------------------------------------
  // Decimal text of numbers (`long.ToString()`, `ulong` in an interpolation)

  predicate IsDigit(c: char) {
    '0' <= c <= '9'
  }

  /** The decimal digits of `n`, most significant first, without leading zeros. */
  function NatToString(n: nat): (s: string)
    ensures |s| > 0
    ensures forall i :: 0 <= i < |s| ==> IsDigit(s[i])
    decreases n
  {
    var last := ["0123456789"[n % 10]];
    if n < 10 then last else NatToString(n / 10) + last
  }

  /** Decimal text of a signed number: a minus sign before the digits of a negative one. */
  function IntToString(n: int): (s: string)
    ensures |s| > 0
    ensures forall i :: 0 <= i < |s| ==> IsDigit(s[i]) || (i == 0 && s[i] == '-')
  {
    if n < 0 then "-" + NatToString(-n) else NatToString(n)
  }

  /** The number a string of decimal digits denotes. */
  function DecimalValue(s: string): nat
    requires forall i :: 0 <= i < |s| ==> IsDigit(s[i])
  {
    if s == [] then 0
    else
      assert IsDigit(s[|s| - 1]);
      10 * DecimalValue(s[..|s| - 1]) + (s[|s| - 1] as int - '0' as int)
  }

  /** The number a decimal text with an optional leading minus sign denotes. */
  function SignedDecimalValue(s: string): int
    requires |s| > 0
    requires forall i :: 0 <= i < |s| ==> IsDigit(s[i]) || (i == 0 && s[i] == '-')
  {
    if s[0] == '-' then -(DecimalValue(s[1..]) as int) else DecimalValue(s)
  }

  /** The digits `NatToString` writes denote the number it was given. */
  lemma {:induction false} NatToStringValue(n: nat)
    ensures DecimalValue(NatToString(n)) == n
    decreases n
  {
    var s := NatToString(n);
    if n >= 10 {
      NatToStringValue(n / 10);
      assert s[..|s| - 1] == NatToString(n / 10);
    }
  }

  /** The text `IntToString` writes denotes the number it was given, sign included. */
  lemma IntToStringValue(n: int)
    ensures SignedDecimalValue(IntToString(n)) == n
  {
    if n < 0 {
      NatToStringValue(-n);
      assert IntToString(n)[1..] == NatToString(-n);
    } else {
      NatToStringValue(n);
    }
  }

  // ---------------------------------------------------------------------
  // The notice

  /** The event token: "connected" for a connect, "disconnected" otherwise. */
  function ConnectTypeString(connectType: bool): string {
    if connectType then "connected" else "disconnected"
  }

  /** The player part of a notice: name, profile link and SteamID. */
  function PlayerText(player: Player): string {
    player.playerName + " (" + ProfileUrl + NatToString(player.steamId) + ") " + NatToString(player.steamId)
  }

  /** The notice without the IP part: time, player, event. */
  function BaseMessage(connectType: bool, player: Player, timestamp: int): string {
    IntToString(timestamp) + ": " + PlayerText(player) + " " + ConnectTypeString(connectType)
  }

  /**
   * `GenerateMessageContent`: the base notice, followed by " with ip <address>"
   * whenever an address is given (an empty one included; only null is skipped).
   */
  function GenerateMessageContent(connectType: bool, player: Player, ipAddress: Option<string>,
                                  timestamp: int): (message: string)
    ensures BaseMessage(connectType, player, timestamp) <= message
    ensures ipAddress.None? <==> |message| == |BaseMessage(connectType, player, timestamp)|
  {
    var message := BaseMessage(connectType, player, timestamp);
    if ipAddress.Some? then message + IpInfix + ipAddress.value else message
  }

  /** `s` ends with `suffix`. */
  predicate EndsWith(s: string, suffix: string) {
    |suffix| <= |s| && forall i :: 0 <= i < |suffix| ==> s[|s| - |suffix| + i] == suffix[i]
  }

  /** The request `SendMessage` issues for an encoded message. */
  function RequestUrl(botToken: string, chatId: string, encodedMessage: string): string {
    ApiUrl + botToken + "/sendMessage?chat_id=" + chatId + "&text=" + encodedMessage
  }

  /**
   * The try block of `SendMessage` from the response on: nothing on success; on an
   * error status, one line with the API's description, unless reading that
   * description raises.
   */
  function TryBlock(response: HttpOutcome, parseDescription: string -> JsonOutcome): (a: Attempt)
    ensures a.Raised? <==> response.Throws? || (response.HttpError? && parseDescription(response.body).ParseFails?)
    ensures a.Returned? ==> |a.lines| == (if response.Success? then 0 else 1)
  {
    match response
    case Success => Returned([])
    case HttpError(body) =>
      (match parseDescription(body)
       case Description(text) => Returned([FailurePrefix + text])
       case ParseFails(exMessage) => Raised(exMessage))
    case Throws(exMessage) => Raised(exMessage)
  }

  // ---------------------------------------------------------------------
  // Lemmas about the notice

  /** Decimal text holds no colon. */
  lemma IntToStringNoColon(n: int)
    ensures ':' !in IntToString(n)
  {
    var s := IntToString(n);
    forall i | 0 <= i < |s| ensures s[i] != ':' {
    }
  }

  /**
   * The timestamp can be read back from a notice: the notice starts with the
   * decimal timestamp and a ':', and the timestamp holds no ':', so the text
   * before the first ':' is exactly the timestamp's decimal text, which denotes
   * the timestamp (`IntToStringValue`).
   */
  lemma TimestampLeadsMessage(connectType: bool, player: Player, ipAddress: Option<string>, timestamp: int)
    ensures IntToString(timestamp) + ":" <= GenerateMessageContent(connectType, player, ipAddress, timestamp)
    ensures ':' !in IntToString(timestamp)
  {
    var message := GenerateMessageContent(connectType, player, ipAddress, timestamp);
    var t := IntToString(timestamp);
    var head := t + ": ";
    var base := ((head + PlayerText(player)) + " ") + ConnectTypeString(connectType);
    assert base == BaseMessage(connectType, player, timestamp);
    forall i | 0 <= i <= |t| ensures message[i] == (t + ":")[i] {
      assert message[i] == base[i] == head[i];
    }
    IntToStringNoColon(timestamp);
  }

  /**
   * With an address, the notice is the one without an address extended by
   * " with ip <address>": the base part is never altered.
   */
  lemma IpNoticeExtendsPlainNotice(connectType: bool, player: Player, ip: string, timestamp: int)
    ensures GenerateMessageContent(connectType, player, Some(ip), timestamp)
            == GenerateMessageContent(connectType, player, None, timestamp) + IpInfix + ip
    ensures EndsWith(GenerateMessageContent(connectType, player, Some(ip), timestamp), IpInfix + ip)
  {
    var plain := GenerateMessageContent(connectType, player, None, timestamp);
    var m := GenerateMessageContent(connectType, player, Some(ip), timestamp);
    var tail := IpInfix + ip;
    forall i | 0 <= i < |tail| ensures m[|m| - |tail| + i] == tail[i] {
      if i < |IpInfix| {
        assert m[|m| - |tail| + i] == (plain + IpInfix)[|plain| + i];
      }
    }
  }

  /** A text ends with whatever was appended last. */
  lemma EndsWithAppended(front: string, tail: string)
    ensures EndsWith(front + tail, tail)
  {
    var m := front + tail;
    forall i | 0 <= i < |tail| ensures m[|m| - |tail| + i] == tail[i] {
    }
  }

  /** When a text ends with two suffixes, the shorter one ends the longer one. */
  lemma EndsWithBoth(m: string, long: string, short: string)
    requires EndsWith(m, long) && EndsWith(m, short) && |short| <= |long|
    ensures EndsWith(long, short)
  {
    forall i | 0 <= i < |short| ensures long[|long| - |short| + i] == short[i] {
      assert m[|m| - |long| + (|long| - |short| + i)] == long[|long| - |short| + i];
    }
  }

  /** The event token with its leading space, written out. */
  lemma SpacedToken(connectType: bool)
    ensures " " + ConnectTypeString(connectType) == if connectType then " connected" else " disconnected"
  {
  }

  /** No text ends with both " connected" and " disconnected". */
  lemma EventTokensExclusive(m: string)
    ensures !(EndsWith(m, " connected") && EndsWith(m, " disconnected"))
  {
    var c, d := " connected", " disconnected";
    assert d[|d| - |c| + 0] != c[0];
    if EndsWith(m, c) && EndsWith(m, d) {
      EndsWithBoth(m, d, c);
      assert false;
    }
  }

  /**
   * Whatever precedes it, " " + the event token ends with " connected" exactly
   * for a connect and with " disconnected" exactly for a disconnect.
   */
  lemma EventTokenDecides(front: string, connectType: bool)
    ensures var m := front + " " + ConnectTypeString(connectType);
            && EndsWith(m, " " + ConnectTypeString(connectType))
            && (EndsWith(m, " connected") <==> connectType)
            && (EndsWith(m, " disconnected") <==> !connectType)
  {
    var token := " " + ConnectTypeString(connectType);
    var m := front + " " + ConnectTypeString(connectType);
    assert m == front + token;
    EndsWithAppended(front, token);
    EventTokensExclusive(m);
    SpacedToken(connectType);
  }

  /**
   * Without an address the notice ends with its event token, and the token tells
   * the two events apart: it ends with " connected" exactly for a connect and
   * with " disconnected" exactly for a disconnect.
   */
  lemma PlainNoticeEndsWithEvent(connectType: bool, player: Player, timestamp: int)
    ensures var m := GenerateMessageContent(connectType, player, None, timestamp);
            && EndsWith(m, " " + ConnectTypeString(connectType))
            && (EndsWith(m, " connected") <==> connectType)
            && (EndsWith(m, " disconnected") <==> !connectType)
  {
    EventTokenDecides(IntToString(timestamp) + ": " + PlayerText(player), connectType);
  }

  /**
   * Different messages give different request URLs for the same bot and chat
   * whenever the URL encoding is one-to-one.
   */
  lemma RequestUrlDeterminesMessage(botToken: string, chatId: string, urlEncode: string -> string,
                                    m1: string, m2: string)
    requires forall a, b :: urlEncode(a) == urlEncode(b) ==> a == b
    requires RequestUrl(botToken, chatId, urlEncode(m1)) == RequestUrl(botToken, chatId, urlEncode(m2))
    ensures m1 == m2
  {
    var prefix := ApiUrl + botToken + "/sendMessage?chat_id=" + chatId + "&text=";
    var u1 := RequestUrl(botToken, chatId, urlEncode(m1));
    var u2 := RequestUrl(botToken, chatId, urlEncode(m2));
    assert u1 == prefix + urlEncode(m1);
    assert u2 == prefix + urlEncode(m2);
    assert urlEncode(m1) == u1[|prefix|..];
    assert urlEncode(m2) == u2[|prefix|..];
  }

  // ---------------------------------------------------------------------
  // The dispatcher

  /** `TelegramClass`: a bot token and a chat id, fixed at construction. */
  class TelegramClass {
    const botToken: string
    const chatId: string

    constructor (botToken: string, chatId: string)
      ensures this.botToken == botToken && this.chatId == chatId
    {
      this.botToken := botToken;
      this.chatId := chatId;
    }

    /** The URL `SendMessage` requests for a notice. */
    function NoticeUrl(connectType: bool, player: Player, ipAddress: Option<string>, timestamp: int,
                       urlEncode: string -> string): string
    {
      RequestUrl(botToken, chatId, urlEncode(GenerateMessageContent(connectType, player, ipAddress, timestamp)))
    }

    /**
     * `SendMessage`: build the notice and its URL, request it, and catch every
     * exception. The returned task always completes normally; the console gains
     * no line on success and exactly one line on any failure.
     */
    method SendMessage(connectType: bool, player: Player, ipAddress: Option<string>, timestamp: int,
                       urlEncode: string -> string, getAsync: string -> HttpOutcome,
                       parseDescription: string -> JsonOutcome, console: seq<string>)
      returns (task: TaskStatus, console': seq<string>)
      ensures task == RanToCompletion
      ensures var response := getAsync(NoticeUrl(connectType, player, ipAddress, timestamp, urlEncode));
              && console <= console'
              && (response.Success? ==> console' == console)
              && (response.HttpError? && parseDescription(response.body).Description? ==>
                    console' == console + [FailurePrefix + parseDescription(response.body).text])
              && (response.HttpError? && parseDescription(response.body).ParseFails? ==>
                    console' == console + [ExceptionPrefix + parseDescription(response.body).exMessage])
              && (response.Throws? ==> console' == console + [ExceptionPrefix + response.exMessage])
              && (|console'| == |console| + 1 <==> !response.Success?)
    {
      var messageContent := GenerateMessageContent(connectType, player, ipAddress, timestamp);
      var encodedMessage := urlEncode(messageContent);
      var url := RequestUrl(botToken, chatId, encodedMessage);
      var attempt := TryBlock(getAsync(url), parseDescription);
      match attempt {
        case Returned(lines) =>
          console' := console + lines;
        case Raised(exMessage) =>
          console' := console + [ExceptionPrefix + exMessage];
      }
      task := RanToCompletion;
    }
  }
}
