/**
 * The decision and string rules of the video-file pattern (`GSTVideo`): the caps string that
 * scales decoded video to the width and height knobs, the guard on updating it, the file name
 * chosen in the open dialog, and the play-position reset on deactivation.
 */
module VideoPattern {
  import opened Results
  import opened JavaText
  import opened JavaNumeric

  /** Default positions of the width and height knobs. */
  const DefaultWidth: int32 := 160
  const DefaultHeight: int32 := 120

  const CapsPrefix: string := "video/x-raw,width="
  const CapsHeightField: string := ",height="
  const CapsFormatField: string := ",format=BGRx"

  /**
   * `String.format("video/x-raw,width=%d,height=%d,format=BGRx", width, height)`; the string
   * names exactly the size it was built from.
   */
  function CapsString(width: int32, height: int32): (caps: string)
    ensures ParseCaps(caps) == Some((width, height))
  {
    var fields := FormatInt(width) + (CapsHeightField + (FormatInt(height) + CapsFormatField));
    ParseSizeFieldsRoundTrip(width, height);
    assert (CapsPrefix + fields)[|CapsPrefix|..] == fields;
    CapsPrefix + fields
  }

  /** Reads the width and height back out of a scaling caps string, or `None` if it is not one. */
  function ParseCaps(caps: string): Option<(int32, int32)> {
    if CapsPrefix <= caps then ParseSizeFields(caps[|CapsPrefix|..]) else None
  }

  /** Parses `W,height=H,format=BGRx` with W and H Java ints. */
  function ParseSizeFields(fields: string): Option<(int32, int32)> {
    var k := IndexOf(fields, ',');
    if k < 0 then None
    else if !(CapsHeightField <= fields[k..]) then None
    else
      match (ParseInt(fields[..k]), ParseHeightField(fields[k + |CapsHeightField|..]))
      case (Some(w), Some(h)) =>
        if INT_MIN <= w <= INT_MAX && INT_MIN <= h <= INT_MAX then Some((w, h)) else None
      case _ => None
  }

  /** Parses `H,format=BGRx`. */
  function ParseHeightField(field: string): Option<int> {
    var k := IndexOf(field, ',');
    if k < 0 || field[k..] != CapsFormatField then None else ParseInt(field[..k])
  }

  /** The number in front of a field separator is read back exactly. */
  lemma ParseBeforeComma(i: int, tail: string)
    requires 0 < |tail| && tail[0] == ','
    ensures IndexOf(FormatInt(i) + tail, ',') == |FormatInt(i)|
    ensures (FormatInt(i) + tail)[..|FormatInt(i)|] == FormatInt(i)
    ensures (FormatInt(i) + tail)[|FormatInt(i)|..] == tail
  {
    assert tail[0] in tail;
    IndexOfAppend(FormatInt(i), tail, ',');
    assert IndexOf(tail, ',') == 0;
  }

  lemma ParseHeightFieldRoundTrip(height: int32)
    ensures ParseHeightField(FormatInt(height) + CapsFormatField) == Some(height as int)
  {
    ParseBeforeComma(height, CapsFormatField);
  }

  lemma ParseSizeFieldsRoundTrip(width: int32, height: int32)
    ensures ParseSizeFields(FormatInt(width) + (CapsHeightField + (FormatInt(height) + CapsFormatField)))
         == Some((width, height))
  {
    var tail := CapsHeightField + (FormatInt(height) + CapsFormatField);
    ParseBeforeComma(width, tail);
    assert tail[|CapsHeightField|..] == FormatInt(height) + CapsFormatField;
    ParseHeightFieldRoundTrip(height);
  }

  /** Every height field `ParseHeightField` accepts is the `%d` form of its value followed by the format. */
  lemma ParseHeightFieldSound(field: string, h: int)
    requires ParseHeightField(field) == Some(h)
    ensures field == FormatInt(h) + CapsFormatField
  {
    var k := IndexOf(field, ',');
    FormatIntParseInt(field[..k], h);
    assert field == field[..k] + field[k..];
  }

  /** Every field list `ParseSizeFields` accepts is the one `CapsString` writes for its values. */
  lemma ParseSizeFieldsSound(fields: string, w: int32, h: int32)
    requires ParseSizeFields(fields) == Some((w, h))
    ensures fields == FormatInt(w) + (CapsHeightField + (FormatInt(h) + CapsFormatField))
  {
    var k := IndexOf(fields, ',');
    var after := fields[k..];
    var rest := fields[k + |CapsHeightField|..];
    FormatIntParseInt(fields[..k], w);
    ParseHeightFieldSound(rest, h);
    assert after == CapsHeightField + rest;
    assert fields == fields[..k] + after;
  }

  /** Every string `ParseCaps` accepts is the caps string for the size it yields. */
  lemma ParseCapsSound(caps: string, width: int32, height: int32)
    requires ParseCaps(caps) == Some((width, height))
    ensures caps == CapsPrefix + (FormatInt(width) + (CapsHeightField + (FormatInt(height) + CapsFormatField)))
  {
    var fields := caps[|CapsPrefix|..];
    ParseSizeFieldsSound(fields, width, height);
    PrefixSplit(CapsPrefix, caps);
  }

  /** A string that starts with `prefix` is `prefix` followed by the rest. */
  lemma PrefixSplit(prefix: string, s: string)
    requires prefix <= s
    ensures s == prefix + s[|prefix|..]
  {
    assert s[..|prefix|] == prefix;
  }

  /**
   * `ParseCaps` and `CapsString` are inverse: a string parses to (W, H) exactly when it is the
   * caps string for W and H.
   */
  lemma CapsStringRoundTrip(caps: string, width: int32, height: int32)
    ensures ParseCaps(caps) == Some((width, height)) <==> caps == CapsString(width, height)
  {
    if ParseCaps(caps) == Some((width, height)) {
      ParseCapsSound(caps, width, height);
    }
  }

  /** The caps string is the three fixed parts around the two formatted numbers. */
  lemma CapsStringFields(width: int32, height: int32, ws: string, hs: string)
    requires FormatInt(width) == ws && FormatInt(height) == hs
    ensures CapsString(width, height) == CapsPrefix + (ws + (CapsHeightField + (hs + CapsFormatField)))
  {
  }

  lemma DefaultKnobDigits()
    ensures FormatInt(DefaultWidth) == "160" && FormatInt(DefaultHeight) == "120"
  {
    assert NatToDecimal(16) == "16";
    assert NatToDecimal(12) == "12";
  }

  lemma DefaultCapsLiteral()
    ensures CapsPrefix + ("160" + (CapsHeightField + ("120" + CapsFormatField)))
         == "video/x-raw,width=160,height=120,format=BGRx"
  {
  }

  /** With the knobs at their defaults the filter asks for 160x120 BGRx video. */
  lemma DefaultCaps()
    ensures CapsString(DefaultWidth, DefaultHeight) == "video/x-raw,width=160,height=120,format=BGRx"
  {
    DefaultKnobDigits();
    CapsStringFields(DefaultWidth, DefaultHeight, "160", "120");
    DefaultCapsLiteral();
  }

  /** Two different sizes never produce the same caps string. */
  lemma CapsStringInjective(w1: int32, h1: int32, w2: int32, h2: int32)
    requires CapsString(w1, h1) == CapsString(w2, h2)
    ensures w1 == w2 && h1 == h2
  {
    CapsStringRoundTrip(CapsString(w1, h1), w2, h2);
  }

  /** The caps of the scaling filter built when the pipeline starts (`createCapsFilter`). */
  function CreateCapsFilter(width: int32, height: int32): (caps: string)
    ensures ParseCaps(caps) == Some((width, height))
  {
    CapsString(width, height)
  }

  /**
   * `updateCapsFilter(width, height)`: the new caps of the filter, if there is one. It formats
   * the current knob values and ignores its own arguments.
   */
  function UpdateCapsFilter(filter: Option<string>, widthKnob: int32, heightKnob: int32,
                            width: int32, height: int32): (r: Option<string>)
    ensures filter.None? ==> r.None?
    ensures filter.Some? ==> r.Some? && ParseCaps(r.value) == Some((widthKnob, heightKnob))
  {
    if filter.None? then None
    else Some(CreateCapsFilter(widthKnob, heightKnob))
  }

  /** Only the knobs decide the update: any two argument pairs give the same caps. */
  lemma UpdateIgnoresArguments(filter: Option<string>, widthKnob: int32, heightKnob: int32,
                               w1: int32, h1: int32, w2: int32, h2: int32)
    ensures UpdateCapsFilter(filter, widthKnob, heightKnob, w1, h1)
         == UpdateCapsFilter(filter, widthKnob, heightKnob, w2, h2)
  {
  }

  /** The stem of a file name: everything before its first '.'; without a '.', `substring` throws. */
  function BaseFilename(name: string): (r: Result<string>)
    ensures r.Failure? <==> '.' !in name
    ensures r.Failure? ==> r.error == StringIndexOutOfBounds
    ensures r.Success? ==> '.' !in r.value && r.value + "." <= name
  {
    var k := IndexOf(name, '.');
    if k < 0 then Failure(StringIndexOutOfBounds)
    else
      assert name[..k + 1] == name[..k] + ".";
      Success(name[..k])
  }

  /** The video file name set when a file is chosen: its stem followed by ".mp4". */
  function VideoFileFor(name: string): (r: Result<string>)
    ensures r.Failure? <==> '.' !in name
    ensures r.Success? ==> 4 <= |r.value| && r.value[|r.value| - 4..] == ".mp4"
    ensures r.Success? ==> var stem := r.value[..|r.value| - 4]; '.' !in stem && stem + "." <= name
  {
    match BaseFilename(name)
    case Success(stem) => Success(stem + ".mp4")
    case Failure(e) => Failure(e)
  }

  /** Choosing the file the pattern already names leaves the name unchanged. */
  lemma VideoFileForIdempotent(name: string)
    requires '.' in name
    ensures VideoFileFor(VideoFileFor(name).value) == VideoFileFor(name)
  {
    var stem := BaseFilename(name).value;
    var v := stem + ".mp4";
    assert v == stem + ("." + "mp4");
    IndexOfAppend(stem, "." + "mp4", '.');
    assert IndexOf(v, '.') == |stem|;
    assert v[..|stem|] == stem;
  }

  /** Only the first '.' counts: "clip.final.mov" becomes "clip" + ".mp4". */
  lemma VideoFileForExample()
    ensures VideoFileFor("clip.final.mov") == Success("clip" + ".mp4")
  {
    var name := "clip.final.mov";
    assert name[..4] == "clip";
    assert IndexOf(name, '.') == 4;
  }

  /**
   * What `onOpen` does: the open button is always switched off; for a chosen file, either a
   * task is queued that sets the video file, or the name had no '.' and the call throws.
   */
  datatype OpenEffect = OpenEffect(buttonActive: bool, queued: Option<string>, thrown: Option<JavaException>)

  function OnOpen(file: Option<string>): (e: OpenEffect)
    ensures !e.buttonActive
    ensures file.None? ==> e.queued.None? && e.thrown.None?
    ensures file.Some? && '.' in file.value ==>
              e.thrown.None? && e.queued.Some? && Success(e.queued.value) == VideoFileFor(file.value)
    ensures file.Some? && '.' !in file.value ==> e.queued.None? && e.thrown == Some(StringIndexOutOfBounds)
  {
    if file.None? then OpenEffect(false, None, None)
    else
      match VideoFileFor(file.value)
      case Success(v) => OpenEffect(false, Some(v), None)
      case Failure(err) => OpenEffect(false, None, Some(err))
  }

  /** The pipeline commands the pattern issues. */
  datatype PipelineCommand = SeekSegment(startNanos: nat) | Pause

  /** `resetPlayPosition`: seek to the start, but only with sync on and a pipeline to seek. */
  function ResetPlayPosition(sync: bool, pipelineExists: bool): (r: Option<PipelineCommand>)
    ensures r.Some? <==> sync && pipelineExists
    ensures r.Some? ==> r.value == SeekSegment(0)
  {
    if sync && pipelineExists then Some(SeekSegment(0)) else None
  }

  /** The base pattern's `onInactive`: pause the pipeline, if there is one. */
  function PauseOnInactive(pipelineExists: bool): (r: Option<PipelineCommand>)
    ensures r.Some? <==> pipelineExists
    ensures r.Some? ==> r.value == Pause
  {
    if pipelineExists then Some(Pause) else None
  }

  /**
   * `onInactive`: the reset, then the base pattern's pause. A pipeline is always paused, and a
   * synced one is rewound before it is paused.
   */
  function OnInactive(sync: bool, pipelineExists: bool): (cmds: seq<PipelineCommand>)
    ensures Pause in cmds <==> pipelineExists
    ensures SeekSegment(0) in cmds <==> sync && pipelineExists
    ensures |cmds| > 0 ==> cmds[|cmds| - 1] == Pause
  {
    OptionToSeq(ResetPlayPosition(sync, pipelineExists)) + OptionToSeq(PauseOnInactive(pipelineExists))
  }

  function OptionToSeq<T>(o: Option<T>): (s: seq<T>)
    ensures o.None? ==> s == []
    ensures o.Some? ==> s == [o.value]
  {
    match o
    case Some(v) => [v]
    case None => []
  }
}
