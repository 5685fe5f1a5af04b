/**
 * The plugin's glue in src/Main.cpp: which files it lays out
 * (`shouldProcessCurrentFile`), which edits start a layout pass (the
 * `SCN_MODIFIED` case of `beNotified`), and the `enabled` flag handling of
 * the menu commands and of buffer switches.
 */
module Plugin {
  import opened Util
  import opened Config
  import opened ElasticTabstops

  // Extension matching

  /** `needle` occurs in `hay` at index `i`. */
  predicate OccursAt(hay: seq<char>, needle: seq<char>, i: nat)
  {
    i + |needle| <= |hay| && forall j :: 0 <= j < |needle| ==> hay[i + j] == needle[j]
  }

  /** `wcsstr` from index `from` on: the first index where `needle` occurs. */
  function FindFrom(hay: seq<char>, needle: seq<char>, from: nat): (r: Option<nat>)
    ensures r.Some? ==> from <= r.value && OccursAt(hay, needle, r.value)
    ensures r.Some? ==> forall k :: from <= k < r.value ==> !OccursAt(hay, needle, k)
    ensures r.None? ==> forall k :: from <= k ==> !OccursAt(hay, needle, k)
    decreases |hay| - from
  {
    if from + |needle| > |hay| then None
    else if OccursAt(hay, needle, from) then Some(from)
    else FindFrom(hay, needle, from + 1)
  }

  /** Index `n` of `list` starts an entry: it is the first index or a space precedes it. */
  predicate StartsEntry(list: seq<char>, n: nat)
  {
    n == 0 || (n <= |list| && list[n - 1] == ' ')
  }

  /** Index `n` of `list` ends an entry: the terminating NUL or a space follows. */
  predicate EndsEntry(list: seq<char>, n: nat)
  {
    n == |list| || (n < |list| && list[n] == ' ')
  }

  /**
   * `shouldProcessCurrentFile` as written: false when the buffer indents with
   * spaces, true when no extension list is set, and otherwise decided by the
   * first occurrence of the file's extension `ext` in the list alone.
   */
  function ShouldProcessAsWritten(useTabs: bool, extensions: Option<seq<char>>, ext: seq<char>): bool
  {
    if !useTabs then false
    else if extensions.Some? then
      if ext != [] then
        match FindFrom(extensions.value, ext, 0)
        case Some(i) => EndsEntry(extensions.value, i + |ext|)
        case None => false
      else false
    else true
  }

  /** The list names the extension: some occurrence of it is a whole space-separated entry. */
  ghost predicate ListsExtension(list: seq<char>, ext: seq<char>)
  {
    ListedFrom(list, ext, 0)
  }

  /** The search continued past occurrences that are not a whole entry, from index `from` on. */
  function FindEntry(list: seq<char>, ext: seq<char>, from: nat): bool
    decreases |list| - from
  {
    match FindFrom(list, ext, from)
    case None => false
    case Some(i) => (StartsEntry(list, i) && EndsEntry(list, i + |ext|)) || (i < |list| && FindEntry(list, ext, i + 1))
  }

  /** `shouldProcessCurrentFile` with the search continued past occurrences that are not a whole entry. */
  function ShouldProcess(useTabs: bool, extensions: Option<seq<char>>, ext: seq<char>): bool
  {
    if !useTabs then false
    else if extensions.Some? then ext != [] && FindEntry(extensions.value, ext, 0)
    else true
  }

  /** Some occurrence at index `from` or later is a whole entry. */
  ghost predicate ListedFrom(list: seq<char>, ext: seq<char>, from: nat)
  {
    exists i: nat :: from <= i && OccursAt(list, ext, i) && StartsEntry(list, i) && EndsEntry(list, i + |ext|)
  }

  lemma {:induction false} FindEntryListed(list: seq<char>, ext: seq<char>, from: nat)
    requires ext != []
    ensures FindEntry(list, ext, from) <==> ListedFrom(list, ext, from)
    decreases |list| - from
  {
    var r := FindFrom(list, ext, from);
    if r.Some? && !(StartsEntry(list, r.value) && EndsEntry(list, r.value + |ext|)) {
      FindEntrySkip(list, ext, from, r.value);
      FindEntryListed(list, ext, r.value + 1);
      ListedPast(list, ext, from, r.value);
    } else {
      FindEntryDecided(list, ext, from);
    }
  }

  /** When the first occurrence is a whole entry, or there is none, the search and the list agree at once. */
  lemma FindEntryDecided(list: seq<char>, ext: seq<char>, from: nat)
    requires FindFrom(list, ext, from).Some? ==>
      StartsEntry(list, FindFrom(list, ext, from).value) && EndsEntry(list, FindFrom(list, ext, from).value + |ext|)
    ensures FindEntry(list, ext, from) <==> ListedFrom(list, ext, from)
  {
    match FindFrom(list, ext, from)
    case None =>
      NotListed(list, ext, from);
    case Some(i) =>
      ListedAt(list, ext, from, i);
  }

  /** The search steps past an occurrence at `i` that is not a whole entry. */
  lemma FindEntrySkip(list: seq<char>, ext: seq<char>, from: nat, i: nat)
    requires ext != [] && FindFrom(list, ext, from) == Some(i)
    requires !(StartsEntry(list, i) && EndsEntry(list, i + |ext|))
    ensures i < |list| && FindEntry(list, ext, from) == FindEntry(list, ext, i + 1)
  {
    assert OccursAt(list, ext, i);
  }

  /** The first occurrence from `from` on is a whole entry: the search succeeds and the list names it. */
  lemma ListedAt(list: seq<char>, ext: seq<char>, from: nat, i: nat)
    requires FindFrom(list, ext, from) == Some(i) && StartsEntry(list, i) && EndsEntry(list, i + |ext|)
    ensures FindEntry(list, ext, from) && ListedFrom(list, ext, from)
  {
    assert from <= i && OccursAt(list, ext, i);
  }

  /** With no occurrence from `from` on, nothing is listed from there and the search fails. */
  lemma NotListed(list: seq<char>, ext: seq<char>, from: nat)
    requires FindFrom(list, ext, from).None?
    ensures !FindEntry(list, ext, from) && !ListedFrom(list, ext, from)
  {
  }

  /** An occurrence at `i` that is not a whole entry, with none before it, can be skipped. */
  lemma ListedPast(list: seq<char>, ext: seq<char>, from: nat, i: nat)
    requires from <= i && forall k :: from <= k < i ==> !OccursAt(list, ext, k)
    requires !(StartsEntry(list, i) && EndsEntry(list, i + |ext|))
    ensures ListedFrom(list, ext, from) <==> ListedFrom(list, ext, i + 1)
  {
    if ListedFrom(list, ext, from) {
      var j: nat :| from <= j && OccursAt(list, ext, j) && StartsEntry(list, j) && EndsEntry(list, j + |ext|);
      assert i + 1 <= j;
    }
    if ListedFrom(list, ext, i + 1) {
      var j: nat :| i + 1 <= j && OccursAt(list, ext, j) && StartsEntry(list, j) && EndsEntry(list, j + |ext|);
      assert from <= j;
    }
  }

  /**
   * The corrected decision: false when the buffer indents with spaces, true
   * when no list is set, and otherwise true exactly when the file has an
   * extension and the list names it.
   */
  lemma ShouldProcessSpec(useTabs: bool, extensions: Option<seq<char>>, ext: seq<char>)
    ensures ShouldProcess(useTabs, extensions, ext) <==>
      useTabs && (extensions.None? || (ext != [] && ListsExtension(extensions.value, ext)))
  {
    if useTabs && extensions.Some? && ext != [] {
      FindEntryListed(extensions.value, ext, 0);
    }
  }

  /**
   * The code as written and the corrected decision differ only for a file
   * with an extension under a list whose first occurrence of it is not a
   * whole entry.
   */
  lemma AsWrittenDiffers(useTabs: bool, extensions: Option<seq<char>>, ext: seq<char>)
    ensures ShouldProcessAsWritten(useTabs, extensions, ext) != ShouldProcess(useTabs, extensions, ext) ==>
      useTabs && extensions.Some? && ext != [] && FindFrom(extensions.value, ext, 0).Some? &&
      !(StartsEntry(extensions.value, FindFrom(extensions.value, ext, 0).value) &&
        EndsEntry(extensions.value, FindFrom(extensions.value, ext, 0).value + |ext|))
  {
    if useTabs && extensions.Some? && ext != [] {
      var r := FindFrom(extensions.value, ext, 0);
      if r.None? || (StartsEntry(extensions.value, r.value) && EndsEntry(extensions.value, r.value + |ext|)) {
        FirstDecides(extensions.value, ext, 0);
      }
    }
  }

  /** When the first occurrence is a whole entry, or there is none, the search succeeds exactly when there is one. */
  lemma FirstDecides(list: seq<char>, ext: seq<char>, from: nat)
    requires FindFrom(list, ext, from).Some? ==>
      StartsEntry(list, FindFrom(list, ext, from).value) && EndsEntry(list, FindFrom(list, ext, from).value + |ext|)
    ensures FindEntry(list, ext, from) == FindFrom(list, ext, from).Some?
  {
  }

  /** A `.gz` file is laid out under the list `.tar.gz` as written, though no entry of the list is `.gz`. */
  lemma AsWrittenAcceptsSuffix()
    ensures ShouldProcessAsWritten(true, Some(".tar.gz"), ".gz")
    ensures !ShouldProcess(true, Some(".tar.gz"), ".gz")
  {
    var list := ".tar.gz";
    var gz := ".gz";
    assert list[0 + 1] != gz[1] && list[1 + 0] != gz[0] && list[2 + 0] != gz[0] && list[3 + 0] != gz[0];
    assert !OccursAt(list, gz, 0) && !OccursAt(list, gz, 1) && !OccursAt(list, gz, 2) && !OccursAt(list, gz, 3);
    assert list[4..] == gz;
    assert OccursAt(list, gz, 4);
    assert FindFrom(list, ".gz", 3) == Some(4);
    assert FindFrom(list, ".gz", 2) == Some(4);
    assert FindFrom(list, ".gz", 1) == Some(4);
    assert FindFrom(list, ".gz", 0) == Some(4);
    assert EndsEntry(list, 7) && !StartsEntry(list, 4);
    assert FindFrom(list, ".gz", 5).None?;
    assert !FindEntry(list, ".gz", 5);
  }

  /** A `.c` file is not laid out under the list `.cpp .c` as written, though the list names `.c`. */
  lemma AsWrittenMissesLaterEntry()
    ensures !ShouldProcessAsWritten(true, Some(".cpp .c"), ".c")
    ensures ShouldProcess(true, Some(".cpp .c"), ".c")
  {
    var list := ".cpp .c";
    assert OccursAt(list, ".c", 0);
    assert FindFrom(list, ".c", 0) == Some(0);
    assert list[2] == 'p';
    assert OccursAt(list, ".c", 5) && StartsEntry(list, 5) && EndsEntry(list, 7);
    ShouldProcessSpec(true, Some(list), ".c");
  }

  /** An entry that is a longer extension does not name a shorter one it starts with. */
  lemma PrefixEntryNotListed()
    ensures !ShouldProcess(true, Some(".cpp"), ".c")
  {
    var list := ".cpp";
    assert list[1] == 'c' && list[2] == 'p' && list[3] == 'p';
    assert !OccursAt(list, ".c", 2) && FindFrom(list, ".c", 2).None?;
    assert !OccursAt(list, ".c", 1) && FindFrom(list, ".c", 1).None?;
    assert !FindEntry(list, ".c", 1);
    assert OccursAt(list, ".c", 0) && FindFrom(list, ".c", 0) == Some(0);
  }

  // The modification filter

  /** The `modificationType` flags of a Scintilla modification notification. */
  const SC_MOD_INSERTTEXT: bv32 := 0x1
  const SC_MOD_DELETETEXT: bv32 := 0x2
  const SC_PERFORMED_USER: bv32 := 0x10
  const SC_PERFORMED_UNDO: bv32 := 0x20
  const SC_PERFORMED_REDO: bv32 := 0x40
  const SC_LASTSTEPINUNDOREDO: bv32 := 0x100

  /** The fields of an `SCN_MODIFIED` notification the plugin reads. */
  datatype Modification = Modification(modificationType: bv32, position: int, length: int)

  /** The range passed to `ElasticTabstops_OnModify`. */
  datatype EditRange = EditRange(start: int, end: int)

  predicate HasFlag(m: Modification, flag: bv32)
  {
    m.modificationType & flag != 0
  }

  /**
   * The `SCN_MODIFIED` case of `beNotified`: the range to lay out, or none
   * when the plugin or the file is disabled, the change is neither an insert
   * nor a delete, or it is an undo or redo step other than the last.
   */
  function ModifiedRange(enabled: bool, fileEnabled: bool, m: Modification): Option<EditRange>
  {
    if !enabled || !fileEnabled then None
    else
      var isInsert := HasFlag(m, SC_MOD_INSERTTEXT);
      var isDelete := HasFlag(m, SC_MOD_DELETETEXT);
      if !isInsert && !isDelete then None
      else
        var isUserAction := HasFlag(m, SC_PERFORMED_USER);
        var isUndoRedo := HasFlag(m, SC_PERFORMED_REDO | SC_PERFORMED_UNDO);
        var isLastStep := HasFlag(m, SC_LASTSTEPINUNDOREDO);
        if isUserAction || (isUndoRedo && isLastStep) then
          Some(EditRange(m.position, if isInsert then m.position + m.length else m.position))
        else None
  }

  /** The undo-or-redo test on the combined mask is the test of either flag. */
  lemma UndoRedoFlags(m: Modification)
    ensures HasFlag(m, SC_PERFORMED_REDO | SC_PERFORMED_UNDO) <==> HasFlag(m, SC_PERFORMED_UNDO) || HasFlag(m, SC_PERFORMED_REDO)
  {
    var t := m.modificationType;
    assert t & (SC_PERFORMED_REDO | SC_PERFORMED_UNDO) == (t & SC_PERFORMED_UNDO) | (t & SC_PERFORMED_REDO);
  }

  /**
   * A layout pass runs exactly for inserts and deletes in an enabled file
   * that are user actions or the last step of an undo or redo; it starts at
   * the position, and ends after the inserted text or at the position of a
   * deletion.
   */
  lemma ModifiedRangeSpec(enabled: bool, fileEnabled: bool, m: Modification)
    ensures ModifiedRange(enabled, fileEnabled, m).Some? <==>
      enabled && fileEnabled &&
      (HasFlag(m, SC_MOD_INSERTTEXT) || HasFlag(m, SC_MOD_DELETETEXT)) &&
      (HasFlag(m, SC_PERFORMED_USER) ||
       ((HasFlag(m, SC_PERFORMED_UNDO) || HasFlag(m, SC_PERFORMED_REDO)) && HasFlag(m, SC_LASTSTEPINUNDOREDO)))
    ensures ModifiedRange(enabled, fileEnabled, m).Some? ==>
      var r := ModifiedRange(enabled, fileEnabled, m).value;
      r.start == m.position &&
      r.end == (if HasFlag(m, SC_MOD_INSERTTEXT) then m.position + m.length else m.position)
  {
    UndoRedoFlags(m);
  }

  /** An insert of text reported by the user's own typing covers the inserted text. */
  lemma UserInsertRange(m: Modification)
    requires m.modificationType == SC_MOD_INSERTTEXT | SC_PERFORMED_USER
    ensures ModifiedRange(true, true, m) == Some(EditRange(m.position, m.position + m.length))
  {
    assert m.modificationType & SC_MOD_INSERTTEXT != 0;
    assert m.modificationType & SC_PERFORMED_USER != 0;
  }

  /** An intermediate step of a multi-step undo starts no pass. */
  lemma UndoStepSkipped(m: Modification)
    requires m.modificationType == SC_MOD_DELETETEXT | SC_PERFORMED_UNDO
    ensures ModifiedRange(true, true, m).None?
  {
    assert m.modificationType & SC_PERFORMED_USER == 0;
    assert m.modificationType & SC_LASTSTEPINUNDOREDO == 0;
  }

  // The plugin's state

  /** What a menu command or a buffer switch asks of the layout engine. */
  datatype Command = ComputeEntireDoc | ClearAll | Nothing

  /**
   * The file-level state of src/Main.cpp: the settings `config` and the
   * static flag `isFileEnabled` of `beNotified`.
   */
  class PluginState {
    var config: Configuration
    var isFileEnabled: bool

    constructor ()
      ensures fresh(config)
      ensures config.Value() == Settings(true, None, 1) && isFileEnabled
    {
      config := new Configuration();
      isFileEnabled := true;
    }

    /**
     * `beNotified` on `SCN_MODIFIED`: ignores notifications from unknown
     * windows, then filters the modification.
     */
    method OnModified(fromKnownWindow: bool, m: Modification) returns (edit: Option<EditRange>)
      ensures edit.Some? <==> fromKnownWindow && ModifiedRange(config.enabled, isFileEnabled, m).Some?
      ensures edit.Some? ==> edit == ModifiedRange(config.enabled, isFileEnabled, m)
    {
      if !fromKnownWindow {
        return None;
      }
      edit := ModifiedRange(config.enabled, isFileEnabled, m);
    }

    /**
     * `beNotified` on `NPPN_BUFFERACTIVATED`: when the plugin is enabled,
     * decides whether the new buffer is laid out and, if so, lays it out.
     */
    method OnBufferActivated(useTabs: bool, ext: seq<char>) returns (cmd: Command)
      modifies this
      ensures config == old(config)
      ensures !config.enabled ==> isFileEnabled == old(isFileEnabled) && cmd == Nothing
      ensures config.enabled ==> isFileEnabled == ShouldProcessAsWritten(useTabs, config.fileExtensions, ext)
      ensures config.enabled ==> cmd == if isFileEnabled then ComputeEntireDoc else Nothing
    {
      if !config.enabled {
        return Nothing;
      }
      isFileEnabled := ShouldProcessAsWritten(useTabs, config.fileExtensions, ext);
      cmd := if isFileEnabled then ComputeEntireDoc else Nothing;
    }

    /**
     * `toggleEnabled`: flips the flag, then lays out the whole document if the
     * plugin is now on for this file, else clears every line's tabstops.
     */
    method ToggleEnabled(ed: Editor, ext: seq<char>) returns (cmd: Command)
      requires ed.Valid()
      modifies config, ed`tabstops
      ensures ed.Valid()
      ensures config.enabled == !old(config.enabled)
      ensures config.fileExtensions == old(config.fileExtensions) && config.minPadding == old(config.minPadding)
      ensures cmd == ComputeEntireDoc <==> config.enabled && ShouldProcessAsWritten(ed.useTabs, config.fileExtensions, ext)
      ensures cmd == ComputeEntireDoc ==> ed.tabstops == old(ed.tabstops)
      ensures cmd != ComputeEntireDoc ==> cmd == ClearAll && forall i :: 0 <= i < |ed.tabstops| ==> ed.tabstops[i] == []
    {
      config.enabled := !config.enabled;
      if config.enabled && ShouldProcessAsWritten(ed.useTabs, config.fileExtensions, ext) {
        return ComputeEntireDoc;
      }
      var lineCount := |ed.lines|;
      for i := 0 to lineCount
        modifies ed`tabstops
        invariant ed.Valid() && lineCount == |ed.lines|
        invariant forall k :: 0 <= k < i ==> ed.tabstops[k] == []
      {
        ed.ClearTabstops(i);
      }
      cmd := ClearAll;
    }

    /**
     * `convertEtToSpaces`: when the plugin is on for this file, turns it off
     * for the conversion and on again after; the flag ends as it began.
     */
    method ConvertEtToSpaces(useTabs: bool, ext: seq<char>) returns (converted: bool)
      modifies config
      ensures converted <==> old(config.enabled) && ShouldProcessAsWritten(useTabs, old(config.fileExtensions), ext)
      ensures config.Value() == old(config.Value())
    {
      if !config.enabled || !ShouldProcessAsWritten(useTabs, config.fileExtensions, ext) {
        return false;
      }
      config.enabled := false;
      config.enabled := true;
      converted := true;
    }
  }
}
