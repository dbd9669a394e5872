/**
  The JPEG command's choice of which images to work on: a link given as the first
  argument, or the images of a message (the one before the command, or the one whose
  ID is given). What the client returns for the two message fetches is passed in.
*/
module Jpeg {
  import opened Wrappers
  import opened Util
  import opened UrlPattern

  datatype Attachment = Attachment(proxyURL: string)

  /** A chat message as the command reads it; an attachment slot may be nil. */
  datatype Message = Message(content: string, attachments: seq<Option<Attachment>>)

  /** What `Handle` does next: send an error reply, or fetch and transform these images. */
  datatype Outcome = Reply(text: string) | Process(urls: seq<string>)

  /** The source reads the attachments' links only when the first slot is filled, and then every slot must be. */
  predicate AttachmentsReadable(m: Message) {
    |m.attachments| == 0 || m.attachments[0].None?
    || forall i :: 0 <= i < |m.attachments| ==> m.attachments[i].Some?
  }

  /** The first argument is itself an image link. */
  predicate LinkArgument(arguments: seq<string>) {
    |arguments| != 0 && MatchString(arguments[0])
  }

  /**
    `getMessage`: with no argument, the last of the messages fetched before the command;
    with an ID, the message fetched by that ID; anything else is refused.
    `recent` and `byID` are what the client answers to those two fetches.
  */
  function GetMessage(arguments: seq<string>, recent: Result<seq<Message>>, byID: Result<Message>): (r: Result<Message>)
    requires |arguments| == 0 && recent.Success? ==> |recent.value| > 0
    ensures |arguments| == 0 && recent.Success? ==> r == Success(recent.value[|recent.value| - 1])
    ensures |arguments| == 0 && recent.Failure? ==> r == Failure(recent.error)
    ensures |arguments| != 0 && IsID(arguments[0]) ==>
              r == (if byID.Success? then byID
                    else Failure("unable to get message with ID '" + arguments[0] + "'"))
    ensures |arguments| != 0 && !IsID(arguments[0]) ==>
              r == Failure("'" + arguments[0] + "' doesn't look like a message ID or URL")
  {
    if |arguments| == 0 then
      match recent
      case Failure(err) => Failure(err)
      case Success(messages) => Success(messages[|messages| - 1])
    else if IsID(arguments[0]) then
      match byID
      case Failure(_) => Failure("unable to get message with ID '" + arguments[0] + "'")
      case Success(message) => Success(message)
    else
      Failure("'" + arguments[0] + "' doesn't look like a message ID or URL")
  }

  /** The links of the filled attachments that match the pattern, in attachment order. */
  function MatchingProxyURLs(attachments: seq<Option<Attachment>>): (urls: seq<string>)
    requires forall i :: 0 <= i < |attachments| ==> attachments[i].Some?
    ensures |urls| <= |attachments|
    ensures forall u :: u in urls ==> MatchString(u)
  {
    if attachments == [] then []
    else
      var rest := MatchingProxyURLs(attachments[1..]);
      var u := attachments[0].value.proxyURL;
      if MatchString(u) then [u] + rest else rest
  }

  /** A link is selected exactly when some attachment carries it and it matches the pattern. */
  lemma {:induction false} MatchingProxyURLsMembers(attachments: seq<Option<Attachment>>, u: string)
    requires forall i :: 0 <= i < |attachments| ==> attachments[i].Some?
    ensures u in MatchingProxyURLs(attachments) <==>
            MatchString(u) && exists i :: 0 <= i < |attachments| && attachments[i].value.proxyURL == u
  {
    if attachments != [] {
      MatchingProxyURLsMembers(attachments[1..], u);
      if exists i :: 0 <= i < |attachments| && attachments[i].value.proxyURL == u {
        var i :| 0 <= i < |attachments| && attachments[i].value.proxyURL == u;
        if i > 0 {
          assert attachments[1..][i - 1].value.proxyURL == u;
        }
      }
      if exists i :: 0 <= i < |attachments| - 1 && attachments[1..][i].value.proxyURL == u {
        var i :| 0 <= i < |attachments| - 1 && attachments[1..][i].value.proxyURL == u;
        assert attachments[i + 1].value.proxyURL == u;
      }
    }
  }

  /** The links a message offers: the pattern's matches in its text when it has no first attachment, else its attachments' matching links. */
  function MessageURLs(m: Message): (urls: seq<string>)
    requires AttachmentsReadable(m)
    ensures forall u :: u in urls ==> MatchString(u)
  {
    if |m.attachments| == 0 || m.attachments[0].None? then FindAll(m.content)
    else MatchingProxyURLs(m.attachments)
  }

  /**
    `getURLs`: a link argument is taken whole and nothing is fetched; otherwise the
    message chosen by `GetMessage` supplies the links, and its error is passed on.
  */
  method GetURLs(arguments: seq<string>, recent: Result<seq<Message>>, byID: Result<Message>)
    returns (r: Result<seq<string>>)
    requires |arguments| == 0 && recent.Success? ==> |recent.value| > 0
    requires |arguments| == 0 && recent.Success? ==> AttachmentsReadable(recent.value[|recent.value| - 1])
    requires |arguments| != 0 && !MatchString(arguments[0]) && IsID(arguments[0]) && byID.Success? ==>
               AttachmentsReadable(byID.value)
    ensures LinkArgument(arguments) ==> r == Success([arguments[0]])
    ensures !LinkArgument(arguments) && GetMessage(arguments, recent, byID).Failure? ==>
              r == Failure(GetMessage(arguments, recent, byID).error)
    ensures !LinkArgument(arguments) && GetMessage(arguments, recent, byID).Success? ==>
              r == Success(MessageURLs(GetMessage(arguments, recent, byID).value))
    ensures r.Success? ==> forall u :: u in r.value ==> MatchString(u)
  {
    if |arguments| != 0 && MatchString(arguments[0]) {
      return Success([arguments[0]]);
    }
    var fetched := GetMessage(arguments, recent, byID);
    if fetched.Failure? {
      return Failure(fetched.error);
    }
    var message := fetched.value;
    var urls: seq<string>;
    if |message.attachments| == 0 || message.attachments[0].None? {
      urls := FindAll(message.content);
    } else {
      urls := CollectProxyURLs(message.attachments);
    }
    return Success(urls);
  }

  /** The loop of `getURLs` over the attachments, appending each matching link. */
  method CollectProxyURLs(attachments: seq<Option<Attachment>>) returns (urls: seq<string>)
    requires forall i :: 0 <= i < |attachments| ==> attachments[i].Some?
    ensures urls == MatchingProxyURLs(attachments)
  {
    urls := [];
    for i := 0 to |attachments|
      invariant urls + MatchingProxyURLs(attachments[i..]) == MatchingProxyURLs(attachments)
    {
      var attach := attachments[i].value;
      assert attachments[i..][1..] == attachments[i + 1..];
      if MatchString(attach.proxyURL) {
        urls := urls + [attach.proxyURL];
      }
    }
    assert attachments[|attachments|..] == [];
  }

  /** The reply of the JPEG command's `HandleHelp`. */
  const HelpReply := "`!jpeg` to JPEGify the image that was just sent.\n"
                     + "`!jpeg [message ID]` to JPEGify a specific image in this channel."

  const UrlErrorPrefix := "Unable to get URLs for JPEGing: `"

  /**
    The part of `Handle` before any image is downloaded: when no links can be chosen,
    the error is reported and nothing is processed; otherwise every chosen link matches the pattern.
  */
  method Handle(arguments: seq<string>, recent: Result<seq<Message>>, byID: Result<Message>)
    returns (out: Outcome)
    requires |arguments| == 0 && recent.Success? ==> |recent.value| > 0
    requires |arguments| == 0 && recent.Success? ==> AttachmentsReadable(recent.value[|recent.value| - 1])
    requires |arguments| != 0 && !MatchString(arguments[0]) && IsID(arguments[0]) && byID.Success? ==>
               AttachmentsReadable(byID.value)
    ensures out.Reply? <==> !LinkArgument(arguments) && GetMessage(arguments, recent, byID).Failure?
    ensures out.Reply? ==> out.text == UrlErrorPrefix + GetMessage(arguments, recent, byID).error + "`"
    ensures LinkArgument(arguments) ==> out == Process([arguments[0]])
    ensures !LinkArgument(arguments) && GetMessage(arguments, recent, byID).Success? ==>
              out == Process(MessageURLs(GetMessage(arguments, recent, byID).value))
    ensures out.Process? ==> forall u :: u in out.urls ==> MatchString(u)
  {
    var urls := GetURLs(arguments, recent, byID);
    if urls.Failure? {
      return Reply(UrlErrorPrefix + urls.error + "`");
    }
    return Process(urls.value);
  }
}
