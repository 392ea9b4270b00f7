/**
 * `Vt100ITermFileEscapeCodeHandler` (Vt100/Vt100ITermFileEscapeCodeHandler.cs):
 * parses the body of an iTerm2 `File=` command, `File=[arguments]:payload`.
 * Arguments are `;`-separated `name=value` tags from a fixed set; only
 * `inline=0` is refused. The payload is Base64 (RFC 4648 section 4) image
 * data; decoding it and loading the image are given as a function.
 */
module ITermFile {
  import opened Wrappers
  import opened Strings

  const FileCommandHeader: string := "File="

  /** What the Base64 and image decoders make of a payload. */
  datatype ImageLoad<Image> =
    | Loaded(image: Image)
    | Base64Failure(message: string)
    | ImageFormatFailure(message: string)

  /** The outcome of `TryParse`: the image, or the `Error` text left behind. */
  datatype ParseOutcome<Image> = Parsed(image: Image) | Failed(error: string)

  /** The names in the `tagHandlers` table (lines 133-141). */
  predicate IsKnownTag(name: string)
  {
    name in {"name", "size", "width", "height", "preserveAspectRatio", "inline"}
  }

  /**
   * The tag handler for `name` applied to `argument`: `InlineHandler`
   * refuses `0`, `Noop` accepts everything. `None` means accepted.
   */
  function HandlerError(name: string, argument: string): (r: Option<string>)
    requires IsKnownTag(name)
    ensures r.Some? <==> name == "inline" && argument == "0"
  {
    if name == "inline" && argument == "0" then Some("Only inline images are supported")
    else None
  }

  /** The error one tag produces, or `None` when it is accepted. */
  function TagError(tag: string): (r: Option<string>)
    ensures r.None? <==> exists i :: 0 <= i < |tag| && tag[i] == '=' && IsKnownTag(tag[..i])
                                                     && !(tag[..i] == "inline" && tag[i + 1..] == "0")
                                                     && '=' !in tag[..i]
  {
    match SplitAtFirst(tag, '=')
    case None => Some("Unexpected tag format: " + tag)
    case Some((name, argument)) =>
      assert tag[..|name|] == name && tag[|name| + 1..] == argument;
      if !IsKnownTag(name) then Some("Unsupported tag: " + name)
      else
        var r := HandlerError(name, argument);
        assert r.None? ==> (|name| < |tag| && tag[|name|] == '=' && IsKnownTag(tag[..|name|]));
        r
  }

  /** The first error among `tags`, checked left to right. */
  function FirstTagError(tags: seq<string>): (r: Option<string>)
    ensures r.None? <==> forall k :: 0 <= k < |tags| ==> TagError(tags[k]).None?
  {
    if |tags| == 0 then None
    else if TagError(tags[0]).Some? then TagError(tags[0])
    else FirstTagError(tags[1..])
  }

  /** What `TryParseArguments` decides: `None` to accept, else the error. */
  function ArgumentsError(arguments: string): Option<string>
  {
    if |arguments| == 0 then None else FirstTagError(Split(arguments, ';'))
  }

  /** `TryParseImage` on a payload. */
  function PayloadOutcome<Image>(encodedImage: string, load: string -> ImageLoad<Image>): ParseOutcome<Image>
  {
    match load(encodedImage)
    case Loaded(image) => Parsed(image)
    case Base64Failure(message) => Failed("Base64-encoded image format error: " + message)
    case ImageFormatFailure(message) => Failed("Unsupported image format error: " + message)
  }

  /** What `TryParse` decides for a whole command. */
  function Parse<Image>(encodedCommand: string, load: string -> ImageLoad<Image>): ParseOutcome<Image>
  {
    if !(FileCommandHeader <= encodedCommand) then Failed("Unexpected command type: " + encodedCommand)
    else match SplitAtFirst(encodedCommand, ':')
      case None => Failed("Unexpected command format: " + encodedCommand)
      case Some((head, payload)) =>
        var arguments := if |head| >= |FileCommandHeader| then head[|FileCommandHeader|..] else "";
        match ArgumentsError(arguments)
        case Some(error) => Failed(error)
        case None => PayloadOutcome(payload, load)
  }

  /** The handler object: the `Error` and `Image` properties `TryParse` fills in. */
  class Handler<Image> {
    var error: Option<string>
    var image: Option<Image>

    constructor ()
      ensures error == None && image == None
    {
      error := None;
      image := None;
    }

    /** `TryParseArguments`: checks every tag in turn and stops at the first error. */
    method TryParseArguments(arguments: string) returns (ok: bool)
      modifies this
      ensures ok <==> ArgumentsError(arguments).None?
      ensures !ok ==> error == ArgumentsError(arguments)
      ensures ok ==> error == old(error)
      ensures image == old(image)
    {
      if |arguments| == 0 {
        return true;
      }
      var tags := Split(arguments, ';');
      var i := 0;
      while i < |tags|
        invariant 0 <= i <= |tags|
        invariant FirstTagError(tags) == FirstTagError(tags[i..])
        invariant error == old(error) && image == old(image)
      {
        assert tags[i..][1..] == tags[i + 1..];
        match SplitAtFirst(tags[i], '=')
        case None =>
          error := Some("Unexpected tag format: " + tags[i]);
          return false;
        case Some((name, argument)) =>
          if !IsKnownTag(name) {
            error := Some("Unsupported tag: " + name);
            return false;
          }
          if name == "inline" && argument == "0" {
            error := Some("Only inline images are supported");
            return false;
          }
        i := i + 1;
      }
      return true;
    }

    /** `TryParseImage`: decodes the payload and loads the image. */
    method TryParseImage(encodedImage: string, load: string -> ImageLoad<Image>) returns (ok: bool)
      modifies this
      ensures ok <==> PayloadOutcome(encodedImage, load).Parsed?
      ensures ok ==> image == Some(PayloadOutcome(encodedImage, load).image) && error == old(error)
      ensures !ok ==> error == Some(PayloadOutcome(encodedImage, load).error) && image == old(image)
    {
      match load(encodedImage)
      case Loaded(img) =>
        image := Some(img);
        return true;
      case Base64Failure(message) =>
        error := Some("Base64-encoded image format error: " + message);
        return false;
      case ImageFormatFailure(message) =>
        error := Some("Unsupported image format error: " + message);
        return false;
    }
  }

  /** `TryParse`: a fresh handler, the image on success and the error on failure. */
  method TryParse<Image>(encodedCommand: string, load: string -> ImageLoad<Image>)
    returns (ok: bool, handler: Handler<Image>)
    ensures fresh(handler)
    ensures ok <==> Parse(encodedCommand, load).Parsed?
    ensures ok ==> handler.image == Some(Parse(encodedCommand, load).image)
    ensures !ok ==> handler.error == Some(Parse(encodedCommand, load).error)
  {
    handler := new Handler();
    if !(FileCommandHeader <= encodedCommand) {
      handler.error := Some("Unexpected command type: " + encodedCommand);
      return false, handler;
    }
    var split := SplitAtFirst(encodedCommand, ':');
    if split.None? {
      handler.error := Some("Unexpected command format: " + encodedCommand);
      return false, handler;
    }
    var head := split.value.0;
    var arguments := if |head| >= |FileCommandHeader| then head[|FileCommandHeader|..] else "";
    ok := handler.TryParseArguments(arguments);
    if !ok {
      return false, handler;
    }
    ok := handler.TryParseImage(split.value.1, load);
  }

  /** A command that does not start with `File=` fails with "Unexpected command type". */
  lemma WrongHeaderFails<Image>(encodedCommand: string, load: string -> ImageLoad<Image>)
    requires !(FileCommandHeader <= encodedCommand)
    ensures Parse(encodedCommand, load) == Failed("Unexpected command type: " + encodedCommand)
  {
  }

  /** A `File=` command without `:` fails with "Unexpected command format". */
  lemma MissingColonFails<Image>(encodedCommand: string, load: string -> ImageLoad<Image>)
    requires FileCommandHeader <= encodedCommand && ':' !in encodedCommand
    ensures Parse(encodedCommand, load) == Failed("Unexpected command format: " + encodedCommand)
  {
  }

  /**
   * Only the first `:` separates the arguments from the payload, and an
   * argument error is reported without looking at the payload at all.
   */
  lemma {:induction false} ArgumentsBeforePayload<Image>(arguments: string, payload: string,
                                                        load1: string -> ImageLoad<Image>,
                                                        load2: string -> ImageLoad<Image>)
    requires ':' !in arguments
    ensures var command := FileCommandHeader + arguments + ":" + payload;
            ArgumentsError(arguments).Some? ==>
              Parse(command, load1) == Parse(command, load2) == Failed(ArgumentsError(arguments).value)
    ensures ArgumentsError(arguments).None? ==>
              Parse(FileCommandHeader + arguments + ":" + payload, load1) == PayloadOutcome(payload, load1)
  {
    var command := FileCommandHeader + arguments + ":" + payload;
    assert command == (FileCommandHeader + arguments) + [':'] + payload;
    assert FileCommandHeader <= command;
    SplitAtFirstOfJoin(FileCommandHeader + arguments, ':', payload);
    assert (FileCommandHeader + arguments)[|FileCommandHeader|..] == arguments;
  }

  /** An empty argument list is accepted. */
  lemma EmptyArgumentsAccepted()
    ensures ArgumentsError("").None?
  {
  }

  /**
   * A non-empty argument list is accepted exactly when every `;`-separated
   * tag has a `=`, a known name before its first `=`, and is not `inline=0`.
   */
  lemma ArgumentsAcceptedIff(arguments: string)
    requires |arguments| > 0
    ensures ArgumentsError(arguments).None? <==>
              forall k :: 0 <= k < |Split(arguments, ';')| ==> TagError(Split(arguments, ';')[k]).None?
  {
  }

  /**
   * A single tag `name=value` with a known name is decided by that name's
   * handler alone.
   */
  lemma SingleTagDecidedByHandler(name: string, value: string)
    requires IsKnownTag(name) && '=' !in name && ';' !in name + value
    ensures ArgumentsError(name + "=" + value) == HandlerError(name, value)
  {
    var tag := name + "=" + value;
    assert ';' !in tag;
    SplitWithoutSeparator(tag, ';');
    SplitAtFirstOfJoin(name, '=', value);
    assert name + ['='] + value == tag;
    assert FirstTagError([tag]) == TagError(tag);
  }

  /** `inline=0` is refused with "Only inline images are supported". */
  lemma InlineZeroRefused()
    ensures ArgumentsError("inline=0") == Some("Only inline images are supported")
  {
    SingleTagDecidedByHandler("inline", "0");
    assert "inline" + "=" + "0" == "inline=0";
  }

  /** `inline=1` is accepted. */
  lemma InlineOneAccepted()
    ensures ArgumentsError("inline=1").None?
  {
    SingleTagDecidedByHandler("inline", "1");
    assert "inline" + "=" + "1" == "inline=1";
  }

  /** Any value of a `Noop` tag is accepted, even one containing `=`. */
  lemma NoopTagAccepted(name: string, value: string)
    requires IsKnownTag(name) && name != "inline" && ';' !in value
    ensures ArgumentsError(name + "=" + value).None?
  {
    var tag := name + "=" + value;
    assert '=' !in name;
    assert ';' !in tag;
    SplitWithoutSeparator(tag, ';');
    SplitAtFirstOfJoin(name, '=', value);
    assert name + ['='] + value == tag;
  }
}
