/**
  Reading and writing XML files with `XMLHelper` (src/org/ezze/utils/io/XMLHelper.java):
  the create-empty rule of `readXMLDocument` and the staging / backup /
  rollback protocol of `writeXMLDocument`. The file system is a map from
  file names to contents; every write, rename and delete asks a fault
  oracle whether it succeeds. Parsing and serialisation are opaque
  functions supplied by the caller.
*/
module XmlStore {
  import opened JavaLang
  import opened XmlTree

  /** Regular files by name. */
  type Files = map<string, string>

  /** What writing the serialised document to a file does. */
  datatype WriteOutcome =
    | Written                   // the file holds the serialised document
    | OpenFailed                // no transformer, or the file could not be opened: nothing touched
    | Interrupted(left: string) // opened (and so truncated), then the transform or close failed

  /** Fault oracle for every file operation the writer performs. */
  datatype Platform = Platform(
    write: string -> WriteOutcome,
    delete: string -> bool,
    rename: (string, string) -> bool)

  /** `File.delete`: succeeds only for an existing file the platform lets go. */
  function Delete(fs: Files, f: string, p: Platform): (r: (bool, Files))
    ensures r.0 <==> f in fs && p.delete(f)
    ensures r.1 == if r.0 then fs - {f} else fs
  {
    if f in fs && p.delete(f) then (true, fs - {f}) else (false, fs)
  }

  /** `File.renameTo`: succeeds only for an existing source the platform lets move. */
  function Rename(fs: Files, src: string, dst: string, p: Platform): (r: (bool, Files))
    requires src != dst
    ensures r.0 <==> src in fs && p.rename(src, dst)
    ensures r.0 ==> src !in r.1 && dst in r.1 && r.1[dst] == fs[src]
    ensures forall f :: f != src && f != dst ==> (f in r.1 <==> f in fs)
    ensures forall f :: f != src && f != dst && f in fs ==> r.1[f] == fs[f]
    ensures !r.0 ==> r.1 == fs
  {
    if src in fs && p.rename(src, dst) then (true, (fs - {src})[dst := fs[src]]) else (false, fs)
  }

  // ---------------------------------------------------------------------
  // Reading

  /**
    `readXMLDocument(name, createEmptyDocument, rootTagName)`: parses an
    existing file; for a missing file, creates an empty document (with a
    root only for a non-empty tag) when asked to.
  */
  function ReadXmlDocument(fs: Files, name: Option<string>, createEmptyDocument: Option<bool>,
                           rootTagName: Option<string>, builderAvailable: bool,
                           parse: string -> Option<Document>): (r: Option<Document>)
    ensures name.None? || !builderAvailable ==> r.None?
    ensures name.Some? && builderAvailable && name.value in fs ==> r == parse(fs[name.value])
    ensures name.Some? && builderAvailable && name.value !in fs ==>
      && (r.Some? <==> createEmptyDocument == Some(true))
      && (r.Some? ==> (r.value.root.Some? <==> rootTagName.Some? && rootTagName.value != ""))
      && (r.Some? && r.value.root.Some? ==> r.value.root.value == Element(rootTagName.value, map[], []))
  {
    if name.None? || !builderAvailable then None
    else if name.value !in fs then
      if createEmptyDocument.GetOr(false) then
        if rootTagName.Some? && rootTagName.value != "" then
          Some(Document(Some(Element(rootTagName.value, map[], []))))
        else Some(Document(None))
      else None
    else parse(fs[name.value])
  }

  /** `readXMLDocument(name)`: never creates a document. */
  function ReadExistingXmlDocument(fs: Files, name: Option<string>, builderAvailable: bool,
                                   parse: string -> Option<Document>): (r: Option<Document>)
    ensures name.None? || !builderAvailable || name.value !in fs ==> r.None?
    ensures name.Some? && builderAvailable && name.value in fs ==> r == parse(fs[name.value])
  {
    ReadXmlDocument(fs, name, None, None, builderAvailable, parse)
  }

  // ---------------------------------------------------------------------
  // Preparing the document

  /**
    What `writeXMLDocument` does to the document before serialising it:
    removes the root's own text children (indentation left by a parse) and
    normalises the tree. Only text changes: the skeleton (tags, attributes
    and elements) stays as it was.
  */
  function PrepareForWrite(root: Element): (r: Element)
    ensures r.tag == root.tag && r.attrs == root.attrs
    ensures forall c :: c in r.children ==> c.Element?
    ensures |r.children| == |ElementChildren(root.children)|
    ensures forall i :: 0 <= i < |r.children| ==>
      && r.children[i].tag == ElementChildren(root.children)[i].tag
      && TextContent(r.children[i]) == TextContent(ElementChildren(root.children)[i])
    ensures IsNormal(r)
    ensures r.children == NormalizeForest(ElementChildren(root.children))
    ensures Skeleton(r) == Skeleton(root)
  {
    var elems := ElementChildren(root.children);
    SkeletonOfElementChildren(root.children);
    NormalizeElements(elems);
    forall i | 0 <= i < |elems| {
      NormalizeKeepsText(elems[i]);
    }
    var stripped := Element(root.tag, root.attrs, elems);
    NormalizeIsNormal(stripped);
    NormalizeKeepsSkeleton(stripped);
    Normalize(stripped)
  }

  /** Preparing a prepared document changes nothing, so re-writing writes the same text. */
  lemma PrepareForWriteIdempotent(root: Element)
    ensures PrepareForWrite(PrepareForWrite(root)) == PrepareForWrite(root)
  {
    var r := PrepareForWrite(root);
    ElementChildrenOfElements(r.children);
    assert Element(r.tag, r.attrs, r.children) == r;
    NormalizeNormal(r);
  }

  // ---------------------------------------------------------------------
  // Writing

  /** The file the serialised document goes to first: `name~` when staging, the target itself otherwise. */
  function StagingName(name: string, useTemporaryFile: bool): (r: string)
    ensures useTemporaryFile ==> r == name + "~" && r != name
    ensures !useTemporaryFile ==> r == name
  {
    if useTemporaryFile then name + "~" else name
  }

  /** The name the previous target is moved to: a trailing `.xml` in any case becomes `.backup.xml`. */
  function BackupName(name: string): (r: string)
    ensures EndsWith(r, ".backup.xml")
    ensures |r| > |name| + 1
    ensures EndsWith(ToLower(name), ".xml") ==> r[..|name| - 4] == name[..|name| - 4]
    ensures !EndsWith(ToLower(name), ".xml") ==> r[..|name|] == name
    ensures EndsWith(ToLower(name), ".xml") ==> |r| == |name| + 7
    ensures !EndsWith(ToLower(name), ".xml") ==> |r| == |name| + 11
  {
    (if EndsWith(ToLower(name), ".xml") then name[..|name| - 4] else name) + ".backup.xml"
  }

  lemma NamesDistinct(name: string)
    ensures BackupName(name) != name
    ensures BackupName(name) != name + "~"
    ensures name + "~" != name
  {
    var b := BackupName(name);
    assert b[|b| - 1] == 'l';
    assert (name + "~")[|name|] == '~';
  }

  /** Where the commit stopped. */
  datatype Phase =
    | Rejected        // no document, no name or no root: nothing touched
    | StagingFailed   // the serialised document could not be written
    | WrittenDirect   // no staging file: the direct write was the commit
    | BackupFailed    // the target could not be moved to the backup name
    | Promoted        // the staging file replaced the target
    | RolledBack      // promotion failed; the backup was moved back
    | RollbackFailed  // promotion and rollback both failed
    | FirstWrite      // there was no target; the staging file was renamed (or not)

  /**
    The commit of `writeXMLDocument` once the staging file `name~` is
    written: drop a stale backup, move the target aside, promote the staging
    file, roll back on failure, and delete the backup in either case.
  */
  function Commit(fs: Files, name: string, p: Platform): (res: (bool, Files, Phase))
    requires name + "~" in fs
    ensures var (ok, fs', phase) := res;
      var staging := name + "~"; var backup := BackupName(name);
      && (ok <==> phase == Promoted || (phase == FirstWrite && p.rename(staging, name)))
      && (ok ==> name in fs' && fs'[name] == fs[staging] && staging !in fs')
      && (forall f :: f != name && f != staging && f != backup ==> (f in fs' <==> f in fs))
      && (forall f :: f != name && f != staging && f != backup && f in fs ==> fs'[f] == fs[f])
      && (name !in fs ==> phase == FirstWrite)
      && (name in fs && !p.rename(name, backup) ==>
            phase == BackupFailed && name in fs' && fs'[name] == fs[name])
      && (name in fs && p.rename(name, backup) ==>
            && (p.rename(staging, name) <==> phase == Promoted)
            && (!p.rename(staging, name) && p.rename(backup, name) ==>
                  phase == RolledBack && name in fs' && fs'[name] == fs[name])
            && (!p.rename(staging, name) && !p.rename(backup, name) ==>
                  phase == RollbackFailed && name !in fs')
            && (p.delete(backup) ==> backup !in fs'))
      && (name !in fs && (backup !in fs || p.delete(backup)) ==> backup !in fs')
  {
    NamesDistinct(name);
    var staging := name + "~";
    var backup := BackupName(name);
    var fs1 := if backup in fs then Delete(fs, backup, p).1 else fs;
    if name in fs1 then
      var (moved, fs2) := Rename(fs1, name, backup, p);
      if !moved then (false, fs2, BackupFailed)
      else
        var (promoted, fs3) := Rename(fs2, staging, name, p);
        var (restored, fs4) := if promoted then (false, fs3) else Rename(fs3, backup, name, p);
        var phase := if promoted then Promoted else if restored then RolledBack else RollbackFailed;
        (promoted, Delete(fs4, backup, p).1, phase)
    else
      var (promoted, fs2) := Rename(fs1, staging, name, p);
      (promoted, fs2, FirstWrite)
  }

  /**
    `writeXMLDocument(doc, name, useTemporaryFile, charset, indentSize)`.
    Charset and indentation are folded into `serialize`. Besides the result,
    returns the files afterwards, the document as the call leaves it (root
    text stripped and normalised, even when the write then fails) and the
    phase the protocol stopped in.
  */
  method WriteXmlDocument(fs: Files, doc: Option<Document>, name: Option<string>,
                          useTemporaryFile: Option<bool>, serialize: Document -> string, p: Platform)
    returns (ok: bool, fs': Files, doc': Option<Document>, phase: Phase)
    ensures doc.None? || name.None? || doc.value.root.None? ==>
      !ok && fs' == fs && doc' == doc && phase == Rejected
    ensures doc.Some? && name.Some? && doc.value.root.Some? ==>
      && doc' == Some(Document(Some(PrepareForWrite(doc.value.root.value))))
      && var staging := StagingName(name.value, useTemporaryFile.GetOr(true));
      && var content := serialize(doc'.value);
      && (p.write(staging) == OpenFailed ==> !ok && fs' == fs && phase == StagingFailed)
      && (p.write(staging).Interrupted? ==>
            !ok && fs' == fs[staging := p.write(staging).left] && phase == StagingFailed)
      && (p.write(staging) == Written && !useTemporaryFile.GetOr(true) ==>
            ok && fs' == fs[name.value := content] && phase == WrittenDirect)
      && (ok ==> name.value in fs' && fs'[name.value] == content)
      && (name.value in fs && useTemporaryFile.GetOr(true) && p.write(staging) != Written ==>
            name.value in fs' && fs'[name.value] == fs[name.value])
      && (name.value in fs && useTemporaryFile.GetOr(true) && !p.rename(name.value, BackupName(name.value)) ==>
            !ok && name.value in fs' && fs'[name.value] == fs[name.value])
    ensures doc.Some? && name.Some? && doc.value.root.Some? && useTemporaryFile.GetOr(true)
            && p.write(name.value + "~") == Written ==>
      var staged := fs[name.value + "~" := serialize(Document(Some(PrepareForWrite(doc.value.root.value))))];
      (ok, fs', phase) == Commit(staged, name.value, p)
  {
    if doc.None? || name.None? {
      return false, fs, doc, Rejected;
    }
    var useTemp := useTemporaryFile.GetOr(true);
    if doc.value.root.None? {
      return false, fs, doc, Rejected;
    }
    var prepared := Document(Some(PrepareForWrite(doc.value.root.value)));
    doc' := Some(prepared);
    var staging := StagingName(name.value, useTemp);
    NamesDistinct(name.value);
    match p.write(staging)
    case OpenFailed =>
      return false, fs, doc', StagingFailed;
    case Interrupted(left) =>
      return false, fs[staging := left], doc', StagingFailed;
    case Written =>
      fs' := fs[staging := serialize(prepared)];
    if !useTemp {
      return true, fs', doc', WrittenDirect;
    }
    var committed := Commit(fs', name.value, p);
    ok, fs', phase := committed.0, committed.1, committed.2;
  }

  // ---------------------------------------------------------------------
  // Losing the previous file

  /**
    The commit as `writeXMLDocument` should have run it: the backup is
    deleted only once the new file is in place, so a failed rollback leaves
    the previous content under the backup name.
  */
  function CommitKeepingBackup(fs: Files, name: string, p: Platform): (res: (bool, Files, Phase))
    requires name + "~" in fs
    ensures res.0 ==> name in res.1 && res.1[name] == fs[name + "~"]
    ensures name in fs ==>
      || res.0
      || (name in res.1 && res.1[name] == fs[name])
      || (BackupName(name) in res.1 && res.1[BackupName(name)] == fs[name])
  {
    NamesDistinct(name);
    var staging := name + "~";
    var backup := BackupName(name);
    var fs1 := if backup in fs then Delete(fs, backup, p).1 else fs;
    if name in fs1 then
      var (moved, fs2) := Rename(fs1, name, backup, p);
      if !moved then (false, fs2, BackupFailed)
      else
        var (promoted, fs3) := Rename(fs2, staging, name, p);
        if promoted then (true, Delete(fs3, backup, p).1, Promoted)
        else
          var (restored, fs4) := Rename(fs3, backup, name, p);
          (false, fs4, if restored then RolledBack else RollbackFailed)
    else
      var (promoted, fs2) := Rename(fs1, staging, name, p);
      (promoted, fs2, FirstWrite)
  }

  /** A staged "a.xml" next to its previous content. */
  const LossFiles: Files := map["a.xml" := "old", "a.xml~" := "new"]

  /** A platform on which only the move of "a.xml" to its backup name succeeds. */
  const LossPlatform := Platform(_ => Written, _ => true, (src, dst) => src == "a.xml" && dst == "a.backup.xml")

  /** `LossFiles` once "a.xml" has moved to its backup name. */
  const LossMoved: Files := map["a.xml~" := "new", "a.backup.xml" := "old"]

  /** The staging and backup names of "a.xml". */
  lemma LossNames()
    ensures "a.xml" + "~" == "a.xml~"
    ensures BackupName("a.xml") == "a.backup.xml"
  {
    assert ToLower("a.xml") == "a.xml";
  }

  /** The first move of the commit, to the backup name. */
  lemma LossFirstMove(p: Platform)
    requires p.rename("a.xml", "a.backup.xml")
    ensures Rename(LossFiles, "a.xml", "a.backup.xml", p) == (true, LossMoved)
  {
    assert (LossFiles - {"a.xml"})["a.backup.xml" := "old"] == LossMoved;
  }

  /**
    The commit as written, on `LossFiles` and any platform on which only the
    move to the backup name succeeds: it ends with only the staged file.
  */
  lemma CommitWhenOnlyBackupMoveWorks(p: Platform)
    requires p.rename("a.xml", "a.backup.xml")
    requires !p.rename("a.xml~", "a.xml") && !p.rename("a.backup.xml", "a.xml")
    requires p.delete("a.backup.xml")
    ensures "a.xml" + "~" in LossFiles
    ensures Commit(LossFiles, "a.xml", p) == (false, map["a.xml~" := "new"], RollbackFailed)
  {
    LossNames();
    LossFirstMove(p);
    assert LossMoved - {"a.backup.xml"} == map["a.xml~" := "new"];
  }

  /** The commit that keeps its backup, on the same files and platforms. */
  lemma CommitKeepingBackupWhenOnlyBackupMoveWorks(p: Platform)
    requires p.rename("a.xml", "a.backup.xml")
    requires !p.rename("a.xml~", "a.xml") && !p.rename("a.backup.xml", "a.xml")
    ensures "a.xml" + "~" in LossFiles
    ensures CommitKeepingBackup(LossFiles, "a.xml", p) == (false, LossMoved, RollbackFailed)
  {
    LossNames();
    LossFirstMove(p);
  }

  /**
    With the commit as written, a platform on which only the move to the
    backup name succeeds ends with the previous content in no file at all;
    the commit that keeps its backup still has it under the backup name.
  */
  lemma CommitCanLosePreviousFile()
    ensures "a.xml" + "~" in LossFiles
    ensures LossFiles["a.xml"] == "old"
    ensures !Commit(LossFiles, "a.xml", LossPlatform).0
    ensures forall f :: f in Commit(LossFiles, "a.xml", LossPlatform).1 ==>
      Commit(LossFiles, "a.xml", LossPlatform).1[f] != "old"
    ensures CommitKeepingBackup(LossFiles, "a.xml", LossPlatform).1["a.backup.xml"] == "old"
  {
    CommitWhenOnlyBackupMoveWorks(LossPlatform);
    CommitKeepingBackupWhenOnlyBackupMoveWorks(LossPlatform);
  }
}
