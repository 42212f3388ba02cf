/** The settings file `cjxl_args.ini` (`read_cjxl_args`, src/main.rs:542-593) and the
    choice of the settings a run starts with (src/main.rs:256-279). */
module Config {
  import opened Base
  import opened Text

  /** `JxlArgs`: the four switches and the encoder flags for PNG and JPEG sources. */
  datatype JxlArgs = JxlArgs(
    deleteFolder: bool,
    deleteSourceImage: bool,
    makeZip: bool,
    dontUseTrashcan: bool,
    pngArgs: seq<string>,
    jpgArgs: seq<string>)

  /** The value the reader starts from, the same as `JxlArgs::default()`. */
  const Initial := JxlArgs(false, false, true, false, [], [])

  /** The lists used when the settings file cannot be read. */
  const DefaultPngArgs: seq<string> := ["--distance=0", "--effort=7"]
  const DefaultJpgArgs: seq<string> := ["--distance=0", "--effort=9", "--lossless_jpeg=1"]

  const DeleteFolderKey := "delete_folder="
  const DeleteSourceImageKey := "delete_source_image="
  const MakeZipKey := "make_zip="
  const DontUseTrashcanKey := "dont_use_trashcan_just_delete="
  const PngArgsKey := "png_args="
  const JpgArgsKey := "jpg_args="

  /** No line starts with two of the keys, so the order of the chain never matters. */
  lemma KeysExclusive(arg: string)
    ensures DeleteSourceImageKey <= arg ==> !(DeleteFolderKey <= arg)
    ensures MakeZipKey <= arg ==> !(DeleteFolderKey <= arg) && !(DeleteSourceImageKey <= arg)
    ensures DontUseTrashcanKey <= arg ==>
      !(DeleteFolderKey <= arg) && !(DeleteSourceImageKey <= arg) && !(MakeZipKey <= arg)
    ensures PngArgsKey <= arg ==>
      !(DeleteFolderKey <= arg) && !(DeleteSourceImageKey <= arg) && !(MakeZipKey <= arg) && !(DontUseTrashcanKey <= arg)
    ensures JpgArgsKey <= arg ==>
      !(DeleteFolderKey <= arg) && !(DeleteSourceImageKey <= arg) && !(MakeZipKey <= arg) && !(DontUseTrashcanKey <= arg)
      && !(PngArgsKey <= arg)
  {
    if DeleteSourceImageKey <= arg { assert arg[7] == 's'; }
    if DontUseTrashcanKey <= arg { assert arg[1] == 'o'; }
    if MakeZipKey <= arg { assert arg[0] == 'm'; }
    if PngArgsKey <= arg { assert arg[0] == 'p'; }
    if JpgArgsKey <= arg { assert arg[0] == 'j'; }
  }

  /** A `png_args=`/`jpg_args=` value: brackets stripped from both ends, split at
      ',' and every piece trimmed. One piece more than there are commas, so never
      empty; no piece holds a comma or outer white space. */
  function SplitArgs(v: string): (r: seq<string>)
    ensures |r| == Count(TrimMatches(v, IsBracket), ',') + 1
    ensures forall i :: 0 <= i < |r| ==> Trimmed(r[i]) && ',' !in r[i]
  {
    var pieces := Split(TrimMatches(v, IsBracket), ',');
    TrimPieces(pieces, ',');
    seq(|pieces|, i requires 0 <= i < |pieces| => Trim(pieces[i]))
  }

  /** The arguments are the comma-free pieces that, joined with commas, give
      back the bracket-stripped value, each with the white space around it
      removed. */
  lemma SplitArgsPieces(v: string)
    ensures var r := SplitArgs(v);
      exists pieces: seq<string> ::
        && |pieces| == |r| && |pieces| > 0
        && Join(pieces, ',') == TrimMatches(v, IsBracket)
        && forall i :: 0 <= i < |r| ==> ',' !in pieces[i] && TrimsTo(pieces[i], IsWhitespace, r[i])
  {
    var pieces := Split(TrimMatches(v, IsBracket), ',');
    JoinSplit(TrimMatches(v, IsBracket), ',');
    assert Join(pieces, ',') == TrimMatches(v, IsBracket);
  }

  lemma TrimPieces(pieces: seq<string>, c: char)
    requires forall i :: 0 <= i < |pieces| ==> c !in pieces[i]
    ensures forall i :: 0 <= i < |pieces| ==> Trimmed(Trim(pieces[i])) && c !in Trim(pieces[i])
  {
    forall i | 0 <= i < |pieces|
      ensures Trimmed(Trim(pieces[i])) && c !in Trim(pieces[i])
    {
      TrimKeepsAbsent(pieces[i], c);
    }
  }

  lemma TrimKeepsAbsent(s: string, c: char)
    requires c !in s
    ensures c !in Trim(s)
  {
    var r := Trim(s);
    var k := KeptFrom(s, IsWhitespace, 0);
    assert forall i :: 0 <= i < |r| ==> r[i] == s[k + i];
  }

  /** Which branch of the reader's else-if chain a trimmed line takes, with the
      text after its key. */
  datatype Setting =
    | DeleteFolder(value: string)
    | DeleteSourceImage(value: string)
    | MakeZip(value: string)
    | DontUseTrashcan(value: string)
    | PngArgs(value: string)
    | JpgArgs(value: string)
    | NoSetting

  function Classify(arg: string): Setting {
    if StripPrefix(arg, DeleteFolderKey).Some? then DeleteFolder(StripPrefix(arg, DeleteFolderKey).value)
    else if StripPrefix(arg, DeleteSourceImageKey).Some? then DeleteSourceImage(StripPrefix(arg, DeleteSourceImageKey).value)
    else if StripPrefix(arg, MakeZipKey).Some? then MakeZip(StripPrefix(arg, MakeZipKey).value)
    else if StripPrefix(arg, DontUseTrashcanKey).Some? then DontUseTrashcan(StripPrefix(arg, DontUseTrashcanKey).value)
    else if StripPrefix(arg, PngArgsKey).Some? then PngArgs(StripPrefix(arg, PngArgsKey).value)
    else if StripPrefix(arg, JpgArgsKey).Some? then JpgArgs(StripPrefix(arg, JpgArgsKey).value)
    else NoSetting
  }

  /** The update a branch makes: a switch moves only on the word that leaves its
      default, a list is replaced. */
  function Apply(a: JxlArgs, setting: Setting): JxlArgs {
    match setting
    case DeleteFolder(v) => if Lower(v) == "true" then a.(deleteFolder := true) else a
    case DeleteSourceImage(v) => if Lower(v) == "true" then a.(deleteSourceImage := true) else a
    case MakeZip(v) => if Lower(v) == "false" then a.(makeZip := false) else a
    case DontUseTrashcan(v) => if Lower(v) == "true" then a.(dontUseTrashcan := true) else a
    case PngArgs(v) => a.(pngArgs := SplitArgs(v))
    case JpgArgs(v) => a.(jpgArgs := SplitArgs(v))
    case NoSetting => a
  }

  /** The effect of one line of the settings file. */
  function ApplyLine(a: JxlArgs, line: string): JxlArgs {
    Apply(a, Classify(Trim(line)))
  }

  /** The settings after reading `lines` in order. */
  function ParseLines(lines: seq<string>): JxlArgs {
    if lines == [] then Initial else ApplyLine(ParseLines(lines[..|lines| - 1]), lines[|lines| - 1])
  }

  /** Reading one more line applies that line to the settings read so far. */
  lemma ParseLinesStep(lines: seq<string>, i: nat)
    requires i < |lines|
    ensures ParseLines(lines[..i + 1]) == ApplyLine(ParseLines(lines[..i]), lines[i])
  {
    assert lines[..i + 1][..i] == lines[..i];
  }

  /** `read_cjxl_args`: `content` is the text of the settings file, or None when it
      cannot be read. Each line goes through the else-if chain of `ReadLine`. */
  method ReadCjxlArgs(content: Option<string>) returns (r: Result<JxlArgs, string>)
    ensures content.None? ==> r == Err("Failed to open file")
    ensures content.Some? ==> r == Ok(ParseLines(Lines(content.value)))
  {
    var jxlargs := Initial;
    if content.None? {
      return Err("Failed to open file");
    }
    var lines := Lines(content.value);
    for i := 0 to |lines|
      invariant jxlargs == ParseLines(lines[..i])
    {
      jxlargs := ReadLine(jxlargs, lines[i]);
      ParseLinesStep(lines, i);
    }
    assert lines[..|lines|] == lines;
    return Ok(jxlargs);
  }

  /** The body of the reader's loop: one line updates the settings in place. */
  method ReadLine(jxlargs: JxlArgs, line: string) returns (next: JxlArgs)
    ensures next == ApplyLine(jxlargs, line)
  {
    next := jxlargs;
    var arg := Trim(line);
    if StripPrefix(arg, DeleteFolderKey).Some? {
      if Lower(StripPrefix(arg, DeleteFolderKey).value) == "true" {
        next := next.(deleteFolder := true);
      }
    } else if StripPrefix(arg, DeleteSourceImageKey).Some? {
      if Lower(StripPrefix(arg, DeleteSourceImageKey).value) == "true" {
        next := next.(deleteSourceImage := true);
      }
    } else if StripPrefix(arg, MakeZipKey).Some? {
      if Lower(StripPrefix(arg, MakeZipKey).value) == "false" {
        next := next.(makeZip := false);
      }
    } else if StripPrefix(arg, DontUseTrashcanKey).Some? {
      if Lower(StripPrefix(arg, DontUseTrashcanKey).value) == "true" {
        next := next.(dontUseTrashcan := true);
      }
    } else if StripPrefix(arg, PngArgsKey).Some? {
      next := next.(pngArgs := SplitArgs(StripPrefix(arg, PngArgsKey).value));
    } else if StripPrefix(arg, JpgArgsKey).Some? {
      next := next.(jpgArgs := SplitArgs(StripPrefix(arg, JpgArgsKey).value));
    }
  }

  /** Line `line` holds `key` followed by `word` in any case. */
  predicate Switches(line: string, key: string, word: string) {
    var v := StripPrefix(Trim(line), key);
    v.Some? && Lower(v.value) == word
  }

  /** Some line of `lines` holds `key` followed by `word`. */
  predicate SwitchedIn(lines: seq<string>, key: string, word: string) {
    exists i :: 0 <= i < |lines| && Switches(lines[i], key, word)
  }

  /** Each switch leaves its default exactly when some line names it with the
      opposite word; a later line never switches it back. */
  lemma {:induction false} ParsedSwitches(lines: seq<string>)
    ensures ParseLines(lines).deleteFolder <==> SwitchedIn(lines, DeleteFolderKey, "true")
    ensures ParseLines(lines).deleteSourceImage <==> SwitchedIn(lines, DeleteSourceImageKey, "true")
    ensures !ParseLines(lines).makeZip <==> SwitchedIn(lines, MakeZipKey, "false")
    ensures ParseLines(lines).dontUseTrashcan <==> SwitchedIn(lines, DontUseTrashcanKey, "true")
  {
    if lines != [] {
      var init, last := lines[..|lines| - 1], lines[|lines| - 1];
      ParsedSwitches(init);
      ApplyLineSwitches(ParseLines(init), last);
      SwitchedInSnoc(lines, DeleteFolderKey, "true");
      SwitchedInSnoc(lines, DeleteSourceImageKey, "true");
      SwitchedInSnoc(lines, MakeZipKey, "false");
      SwitchedInSnoc(lines, DontUseTrashcanKey, "true");
    }
  }

  /** One line sets a switch exactly when it names that switch's key with the
      opposite word, whatever the other keys: one lemma per switch. */
  lemma ApplyLineSwitches(a: JxlArgs, line: string)
    ensures ApplyLine(a, line).deleteFolder == (a.deleteFolder || Switches(line, DeleteFolderKey, "true"))
    ensures ApplyLine(a, line).deleteSourceImage == (a.deleteSourceImage || Switches(line, DeleteSourceImageKey, "true"))
    ensures !ApplyLine(a, line).makeZip == (!a.makeZip || Switches(line, MakeZipKey, "false"))
    ensures ApplyLine(a, line).dontUseTrashcan == (a.dontUseTrashcan || Switches(line, DontUseTrashcanKey, "true"))
  {
    KeysExclusive(Trim(line));
    DeleteFolderLine(a, line);
    DeleteSourceImageLine(a, line);
    MakeZipLine(a, line);
    DontUseTrashcanLine(a, line);
  }

  lemma DeleteFolderLine(a: JxlArgs, line: string)
    ensures ApplyLine(a, line).deleteFolder == (a.deleteFolder || Switches(line, DeleteFolderKey, "true"))
  {
    SettingOf(Trim(line));
    ApplySwitches(a, Classify(Trim(line)));
  }

  lemma DeleteSourceImageLine(a: JxlArgs, line: string)
    ensures ApplyLine(a, line).deleteSourceImage == (a.deleteSourceImage || Switches(line, DeleteSourceImageKey, "true"))
  {
    SettingOf(Trim(line));
    ApplySwitches(a, Classify(Trim(line)));
  }

  lemma MakeZipLine(a: JxlArgs, line: string)
    ensures !ApplyLine(a, line).makeZip == (!a.makeZip || Switches(line, MakeZipKey, "false"))
  {
    SettingOf(Trim(line));
    ApplySwitches(a, Classify(Trim(line)));
  }

  lemma DontUseTrashcanLine(a: JxlArgs, line: string)
    ensures ApplyLine(a, line).dontUseTrashcan == (a.dontUseTrashcan || Switches(line, DontUseTrashcanKey, "true"))
  {
    SettingOf(Trim(line));
    ApplySwitches(a, Classify(Trim(line)));
  }

  /** A switch moves only under its own setting, and only on the word that
      leaves its default. */
  lemma ApplySwitches(a: JxlArgs, setting: Setting)
    ensures Apply(a, setting).deleteFolder == (a.deleteFolder || (setting.DeleteFolder? && Lower(setting.value) == "true"))
    ensures Apply(a, setting).deleteSourceImage == (a.deleteSourceImage || (setting.DeleteSourceImage? && Lower(setting.value) == "true"))
    ensures !Apply(a, setting).makeZip == (!a.makeZip || (setting.MakeZip? && Lower(setting.value) == "false"))
    ensures Apply(a, setting).dontUseTrashcan == (a.dontUseTrashcan || (setting.DontUseTrashcan? && Lower(setting.value) == "true"))
  {
    match setting
    case DeleteFolder(v) =>
    case DeleteSourceImage(v) =>
    case MakeZip(v) =>
    case DontUseTrashcan(v) =>
    case PngArgs(v) =>
    case JpgArgs(v) =>
    case NoSetting =>
  }

  /** Each branch is taken exactly when the line starts with its key. */
  lemma SettingOf(arg: string)
    ensures Classify(arg).DeleteFolder? <==> StripPrefix(arg, DeleteFolderKey).Some?
    ensures Classify(arg).DeleteSourceImage? <==> StripPrefix(arg, DeleteSourceImageKey).Some?
    ensures Classify(arg).MakeZip? <==> StripPrefix(arg, MakeZipKey).Some?
    ensures Classify(arg).DontUseTrashcan? <==> StripPrefix(arg, DontUseTrashcanKey).Some?
    ensures Classify(arg).PngArgs? <==> StripPrefix(arg, PngArgsKey).Some?
    ensures Classify(arg).JpgArgs? <==> StripPrefix(arg, JpgArgsKey).Some?
    ensures Classify(arg).DeleteFolder? ==> Classify(arg).value == StripPrefix(arg, DeleteFolderKey).value
    ensures Classify(arg).DeleteSourceImage? ==> Classify(arg).value == StripPrefix(arg, DeleteSourceImageKey).value
    ensures Classify(arg).MakeZip? ==> Classify(arg).value == StripPrefix(arg, MakeZipKey).value
    ensures Classify(arg).DontUseTrashcan? ==> Classify(arg).value == StripPrefix(arg, DontUseTrashcanKey).value
    ensures Classify(arg).PngArgs? ==> Classify(arg).value == StripPrefix(arg, PngArgsKey).value
    ensures Classify(arg).JpgArgs? ==> Classify(arg).value == StripPrefix(arg, JpgArgsKey).value
  {
    KeysExclusive(arg);
  }

  lemma SwitchedInSnoc(lines: seq<string>, key: string, word: string)
    requires lines != []
    ensures SwitchedIn(lines, key, word) <==>
      SwitchedIn(lines[..|lines| - 1], key, word) || Switches(lines[|lines| - 1], key, word)
  {
    var holds := line => Switches(line, key, word);
    SomeLineSnoc(lines, holds);
    assert SwitchedIn(lines, key, word) == SomeLine(lines, holds);
    assert SwitchedIn(lines[..|lines| - 1], key, word) == SomeLine(lines[..|lines| - 1], holds);
  }

  predicate SomeLine(lines: seq<string>, holds: string -> bool) {
    exists i :: 0 <= i < |lines| && holds(lines[i])
  }

  lemma SomeLineSnoc(lines: seq<string>, holds: string -> bool)
    requires lines != []
    ensures SomeLine(lines, holds) <==> SomeLine(lines[..|lines| - 1], holds) || holds(lines[|lines| - 1])
  {
    var init := lines[..|lines| - 1];
    if SomeLine(lines, holds) {
      var i :| 0 <= i < |lines| && holds(lines[i]);
      if i < |lines| - 1 {
        assert holds(init[i]);
      }
    }
    if SomeLine(init, holds) {
      var i :| 0 <= i < |init| && holds(init[i]);
      assert holds(lines[i]);
    }
  }

  /** The text after `key` on the last line that starts with it, if any. */
  function LastValue(lines: seq<string>, key: string): Option<string> {
    if lines == [] then None
    else if StripPrefix(Trim(lines[|lines| - 1]), key).Some? then StripPrefix(Trim(lines[|lines| - 1]), key)
    else LastValue(lines[..|lines| - 1], key)
  }

  /** What a list should be after `lines`: from the last line that sets it, empty
      when no line does. */
  function ListAfter(lines: seq<string>, key: string): seq<string> {
    match LastValue(lines, key)
    case None => []
    case Some(v) => SplitArgs(v)
  }

  /** The argument lists come from the last line that sets each. */
  lemma {:induction false} ParsedArgLists(lines: seq<string>)
    ensures ParseLines(lines).pngArgs == ListAfter(lines, PngArgsKey)
    ensures ParseLines(lines).jpgArgs == ListAfter(lines, JpgArgsKey)
  {
    if lines != [] {
      var init, last := lines[..|lines| - 1], lines[|lines| - 1];
      ParsedArgLists(init);
      PngArgsLine(ParseLines(init), last);
      JpgArgsLine(ParseLines(init), last);
    }
  }

  lemma PngArgsLine(a: JxlArgs, line: string)
    ensures ApplyLine(a, line).pngArgs ==
      if StripPrefix(Trim(line), PngArgsKey).Some? then SplitArgs(StripPrefix(Trim(line), PngArgsKey).value) else a.pngArgs
  {
    SettingOf(Trim(line));
    ApplyPng(a, Classify(Trim(line)));
  }

  lemma ApplyPng(a: JxlArgs, setting: Setting)
    ensures Apply(a, setting).pngArgs == if setting.PngArgs? then SplitArgs(setting.value) else a.pngArgs
  {
    match setting
    case PngArgs(v) =>
    case _ =>
  }

  lemma JpgArgsLine(a: JxlArgs, line: string)
    ensures ApplyLine(a, line).jpgArgs ==
      if StripPrefix(Trim(line), JpgArgsKey).Some? then SplitArgs(StripPrefix(Trim(line), JpgArgsKey).value) else a.jpgArgs
  {
    SettingOf(Trim(line));
    ApplyJpg(a, Classify(Trim(line)));
  }

  lemma ApplyJpg(a: JxlArgs, setting: Setting)
    ensures Apply(a, setting).jpgArgs == if setting.JpgArgs? then SplitArgs(setting.value) else a.jpgArgs
  {
    match setting
    case JpgArgs(v) =>
    case _ =>
  }

  /** The settings a run starts with (src/main.rs:256-279): the file's when both
      lists are set, the built-in lists when the file cannot be read, and None
      (the run stops) when the file lacks a list. */
  function StartupArgs(read: Result<JxlArgs, string>): (r: Option<JxlArgs>)
    ensures r.Some? ==> r.value.pngArgs != [] && r.value.jpgArgs != []
    ensures read.Ok? ==> (r.Some? <==> read.value.pngArgs != [] && read.value.jpgArgs != [])
    ensures read.Ok? && r.Some? ==> r.value == read.value
    ensures read.Err? ==> r.Some? && r.value.pngArgs == DefaultPngArgs && r.value.jpgArgs == DefaultJpgArgs
  {
    match read
    case Ok(a) => if a.pngArgs == [] || a.jpgArgs == [] then None else Some(a)
    case Err(_) => Some(Initial.(pngArgs := DefaultPngArgs, jpgArgs := DefaultJpgArgs))
  }

  /** A readable settings file stops the run exactly when a `png_args=` or a
      `jpg_args=` line is missing: a line that is present always yields a list. */
  lemma StartupStopsOnlyWithoutListLine(text: string)
    ensures StartupArgs(Ok(ParseLines(Lines(text)))).None? <==>
      LastValue(Lines(text), PngArgsKey).None? || LastValue(Lines(text), JpgArgsKey).None?
  {
    ParsedArgLists(Lines(text));
  }
}
