/**
 * The file-aware editor (components/TipTap/TextBubble.tsx): the total size of the picked files and its
 * unit, which picked file the selection sits on, and the insertion of one token node per file. The
 * TipTap document is reduced to the nodes this logic reads; `Math.random` ids enter as a parameter.
 */
module TextBubble {
  import opened Wrappers
  import opened BrowserFile

  datatype FileData = FileData(file: File, placeholderId: string)

  // ---------------------------------------------------------------- sizes

  /** `calculateCumulativeFileSize`: the `reduce` from the left, starting at 0. */
  function CumulativeFileSize(files: seq<FileData>): nat {
    if files == [] then 0
    else CumulativeFileSize(files[..|files| - 1]) + files[|files| - 1].file.size
  }

  /** The total over a concatenation is the sum of the totals. */
  lemma {:induction false} CumulativeFileSizeAppend(a: seq<FileData>, b: seq<FileData>)
    ensures CumulativeFileSize(a + b) == CumulativeFileSize(a) + CumulativeFileSize(b)
    decreases |b|
  {
    if b == [] {
      assert a + b == a;
    } else {
      var n := |b| - 1;
      assert (a + b)[..|a + b| - 1] == a + b[..n];
      CumulativeFileSizeAppend(a, b[..n]);
    }
  }

  /** An empty list weighs nothing, and every file counts in full. */
  lemma {:induction false} CumulativeFileSizeBounds(files: seq<FileData>)
    ensures files == [] ==> CumulativeFileSize(files) == 0
    ensures forall k :: 0 <= k < |files| ==> files[k].file.size <= CumulativeFileSize(files)
  {
    if files != [] {
      var n := |files| - 1;
      CumulativeFileSizeBounds(files[..n]);
      forall k | 0 <= k < n ensures files[k].file.size <= CumulativeFileSize(files) {
        assert files[..n][k] == files[k];
      }
    }
  }

  datatype Unit = GB | MB

  const BytesPerGB: nat := 1024 * 1024 * 1024

  /** The unit `formatFileSize` picks: GB when `bytes / 1024³` is at least 1. */
  function SizeUnit(sizeInBytes: nat): Unit {
    if (sizeInBytes as real) / (BytesPerGB as real) >= 1.0 then GB else MB
  }

  /** The unit is GB exactly from 1073741824 bytes on. */
  lemma SizeUnitThreshold(sizeInBytes: nat)
    ensures SizeUnit(sizeInBytes) == GB <==> sizeInBytes >= 1073741824
  {
    var x, c := sizeInBytes as real, BytesPerGB as real;
    assert c == 1073741824.0;
    assert x / c * c == x;
  }

  // ---------------------------------------------------------------- selection

  /** A node of the document as `descendants` visits it: its position and its `placeholderId` attribute, if any. */
  datatype DocNode = DocNode(pos: int, placeholderId: Option<string>)

  predicate Matches(node: DocNode, placeholderId: string, from: int, to: int) {
    node.placeholderId == Some(placeholderId) && from <= node.pos <= to
  }

  /** Some node of the file's token lies inside the selection. */
  predicate OnSelection(fd: FileData, doc: seq<DocNode>, from: int, to: int) {
    exists k :: 0 <= k < |doc| && Matches(doc[k], fd.placeholderId, from, to)
  }

  /** The last picked file whose token lies inside the selection. */
  function LastSelected(files: seq<FileData>, doc: seq<DocNode>, from: int, to: int): Option<FileData> {
    if files == [] then None
    else if OnSelection(files[|files| - 1], doc, from, to) then Some(files[|files| - 1])
    else LastSelected(files[..|files| - 1], doc, from, to)
  }

  /** `LastSelected` finds a file exactly when one is on the selection, and then the last such one. */
  lemma {:induction false} LastSelectedIsLast(files: seq<FileData>, doc: seq<DocNode>, from: int, to: int)
    ensures LastSelected(files, doc, from, to).None? <==>
      forall k :: 0 <= k < |files| ==> !OnSelection(files[k], doc, from, to)
    ensures LastSelected(files, doc, from, to).Some? ==>
      exists k :: 0 <= k < |files| && files[k] == LastSelected(files, doc, from, to).value &&
        OnSelection(files[k], doc, from, to) &&
        forall j :: k < j < |files| ==> !OnSelection(files[j], doc, from, to)
  {
    if files != [] {
      var n := |files| - 1;
      LastSelectedIsLast(files[..n], doc, from, to);
      assert forall k :: 0 <= k < n ==> files[..n][k] == files[k];
      if !OnSelection(files[n], doc, from, to) {
        if LastSelected(files[..n], doc, from, to).Some? {
          var k :| 0 <= k < n && files[..n][k] == LastSelected(files[..n], doc, from, to).value &&
            OnSelection(files[..n][k], doc, from, to) &&
            forall j :: k < j < n ==> !OnSelection(files[..n][j], doc, from, to);
          assert files[k] == LastSelected(files, doc, from, to).value;
        }
      }
    }
  }

  /** `onSelectionUpdate`: every picked file against every node; a later match overwrites an earlier one. */
  method OnSelectionUpdate(selectedFiles: seq<FileData>, doc: seq<DocNode>, from: int, to: int)
    returns (selectedFile: Option<File>)
    ensures selectedFile ==
      (if LastSelected(selectedFiles, doc, from, to).Some? then Some(LastSelected(selectedFiles, doc, from, to).value.file) else None)
  {
    var selectedToken: Option<FileData> := None;
    for i := 0 to |selectedFiles|
      invariant selectedToken == LastSelected(selectedFiles[..i], doc, from, to)
    {
      var fileData := selectedFiles[i];
      var before := selectedToken;
      for j := 0 to |doc|
        invariant selectedToken ==
          if exists k :: 0 <= k < j && Matches(doc[k], fileData.placeholderId, from, to) then Some(fileData) else before
      {
        if doc[j].placeholderId == Some(fileData.placeholderId) && doc[j].pos >= from && doc[j].pos <= to {
          selectedToken := Some(fileData);
        }
      }
      assert selectedFiles[..i + 1][..i] == selectedFiles[..i];
    }
    assert selectedFiles[..|selectedFiles|] == selectedFiles;
    if selectedToken.Some? {
      selectedFile := Some(selectedToken.value.file);
    } else {
      selectedFile := None;
    }
  }

  // ---------------------------------------------------------------- the editor

  /** What `insertContent` adds: a file-token node, or text. */
  datatype Content = FileTokenNode(fileName: string, placeholderId: string) | Text(text: string)

  /** The content inserted for `files`: per file, its token node and then one space. */
  function TokensFor(files: seq<File>, ids: seq<string>): seq<Content>
    requires |ids| == |files|
  {
    if files == [] then []
    else TokensFor(files[..|files| - 1], ids[..|ids| - 1]) +
         [FileTokenNode(files[|files| - 1].name, ids[|ids| - 1]), Text(" ")]
  }

  /** The entries `insertFileTokens` appends: each file with its id, in order. */
  function Entries(files: seq<File>, ids: seq<string>): (r: seq<FileData>)
    requires |ids| == |files|
    ensures |r| == |files|
    ensures forall k :: 0 <= k < |files| ==> r[k] == FileData(files[k], ids[k])
  {
    if files == [] then []
    else
      var n := |files| - 1;
      var init := Entries(files[..n], ids[..n]);
      assert forall k :: 0 <= k < n ==> files[..n][k] == files[k] && ids[..n][k] == ids[k];
      init + [FileData(files[n], ids[n])]
  }

  /** Two nodes per file: the `k`-th file's token at `2k`, a space after it. */
  lemma {:induction false} TokensForShape(files: seq<File>, ids: seq<string>)
    requires |ids| == |files|
    ensures |TokensFor(files, ids)| == 2 * |files|
    ensures forall k :: 0 <= k < |files| ==>
      TokensFor(files, ids)[2 * k] == FileTokenNode(files[k].name, ids[k]) && TokensFor(files, ids)[2 * k + 1] == Text(" ")
  {
    if files != [] {
      var n := |files| - 1;
      TokensForShape(files[..n], ids[..n]);
      var init, r := TokensFor(files[..n], ids[..n]), TokensFor(files, ids);
      assert r == init + [FileTokenNode(files[n].name, ids[n]), Text(" ")];
      forall k | 0 <= k < |files|
        ensures r[2 * k] == FileTokenNode(files[k].name, ids[k]) && r[2 * k + 1] == Text(" ")
      {
        if k < n {
          assert r[2 * k] == init[2 * k] && r[2 * k + 1] == init[2 * k + 1];
          assert files[..n][k] == files[k] && ids[..n][k] == ids[k];
        }
      }
    }
  }

  /** The editor: the document around the cursor, the picked files, and the props it sets. */
  class Editor {
    /** `editor` is `null` until TipTap has created it; `editor?.commands` then does nothing. */
    const ready: bool
    var before: seq<Content>
    var after: seq<Content>
    var selectedFiles: seq<FileData>
    var disabledState: bool

    /** The page mounts the editor with the empty paragraph `<p></p>` and `useState(true)` for the flag. */
    constructor (ready: bool)
      ensures this.ready == ready && before == [] && after == [] && selectedFiles == [] && disabledState
      ensures IsEmpty() && Consistent()
    {
      this.ready := ready;
      before, after := [], [];
      selectedFiles := [];
      disabledState := true;
    }

    /** `editor.isEmpty`: no token and no character in the document. */
    predicate IsEmpty()
      reads `before, `after
    {
      forall c :: c in before + after ==> c == Text("")
    }

    /** The send button is disabled exactly while the editor is empty. */
    predicate Consistent()
      reads `before, `after, `disabledState
    {
      disabledState == IsEmpty()
    }

    /** `onUpdate`: the send button is disabled exactly while the editor is empty. */
    method OnUpdate()
      modifies this
      ensures disabledState == IsEmpty() && Consistent()
      ensures before == old(before) && after == old(after) && selectedFiles == old(selectedFiles)
    {
      disabledState := IsEmpty();
    }

    /**
     * `insertFileTokens(files)` with the ids it draws: per file, a token node and a space at the cursor
     * (when the editor exists), and one entry appended to `selectedFiles`. Each `insertContent`
     * changes the document, so TipTap runs `onUpdate` after it.
     */
    method InsertFileTokens(files: seq<File>, ids: seq<string>)
      requires |ids| == |files|
      modifies this
      ensures before == old(before) + (if ready then TokensFor(files, ids) else [])
      ensures after == old(after)
      ensures ready && files != [] ==> !disabledState && !IsEmpty() && Consistent()
      ensures !ready || files == [] ==> disabledState == old(disabledState)
      ensures old(Consistent()) ==> Consistent()
      ensures selectedFiles == old(selectedFiles) + Entries(files, ids)
    {
      ghost var start, picked := before, selectedFiles;
      for i := 0 to |files|
        invariant ready ==> before == start + TokensFor(files[..i], ids[..i])
        invariant !ready ==> before == start
        invariant selectedFiles == picked + Entries(files[..i], ids[..i])
        invariant after == old(after)
        invariant ready && i > 0 ==> !disabledState && !IsEmpty() && Consistent()
        invariant !ready || i == 0 ==> disabledState == old(disabledState)
      {
        var file, placeholderId := files[i], ids[i];
        TakeOneMore(files, ids, i);
        if ready {
          var token := FileTokenNode(file.name, placeholderId);
          AppendAssoc(start, TokensFor(files[..i], ids[..i]), [token, Text(" ")]);
          ghost var prior := before;
          before := before + [token];
          assert token in before + after;
          OnUpdate();
          before := before + [Text(" ")];
          assert before == prior + [token, Text(" ")];
          assert token in before + after;
          OnUpdate();
        }
        AppendAssoc(picked, Entries(files[..i], ids[..i]), [FileData(file, placeholderId)]);
        selectedFiles := selectedFiles + [FileData(file, placeholderId)];
      }
      assert files[..|files|] == files && ids[..|ids|] == ids;
    }
  }

  /** One more file: its token and its entry follow those of the files before it. */
  lemma TakeOneMore(files: seq<File>, ids: seq<string>, i: nat)
    requires |ids| == |files| && i < |files|
    ensures TokensFor(files[..i + 1], ids[..i + 1]) ==
      TokensFor(files[..i], ids[..i]) + [FileTokenNode(files[i].name, ids[i]), Text(" ")]
    ensures Entries(files[..i + 1], ids[..i + 1]) == Entries(files[..i], ids[..i]) + [FileData(files[i], ids[i])]
  {
    assert files[..i + 1][..i] == files[..i] && ids[..i + 1][..i] == ids[..i];
  }

  /** Inserting files keeps the earlier entries and adds exactly one entry per file. */
  lemma InsertKeepsEarlier(old_: seq<FileData>, files: seq<File>, ids: seq<string>)
    requires |ids| == |files|
    ensures |old_ + Entries(files, ids)| == |old_| + |files|
    ensures (old_ + Entries(files, ids))[..|old_|] == old_
  {
  }

  // ---------------------------------------------------------------- steps

  /** `editable: step >= 1 ? false : true`. */
  predicate Editable(step: int) {
    step < 1
  }

  /** `disabled={step >= 1}` on the Add files button. */
  predicate AddFilesDisabled(step: int) {
    step >= 1
  }

  /** Files can be added exactly while the text can be edited. */
  lemma AddFilesWhileEditable(step: int)
    ensures Editable(step) <==> !AddFilesDisabled(step)
  {
  }
}
