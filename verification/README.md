# Ezze-Utilities in Dafny

A model of the core of Ezze-Utilities, a small Java utility library. It covers five areas:

- **`XMLHelper` reading and writing.** `readXMLDocument` creates an empty document for a missing file. `writeXMLDocument` strips the root's text, normalises, and then runs its staging, backup and rollback commit.
- **`XMLHelper` DOM helpers.** These are the lookups by tag name, attribute or position, the text and attribute getters with their integer, long and boolean coercions and their default-value forms, and the mutators.
- **`DirectoryManager`.** This covers recursive directory creation, the closest existing directory, recursive removal, removal of filtered entries, and trimming trailing backslashes.
- **`CompoundFileFilter`.** A duplicate-free list of filters, a file accepted by any of them, a description, and a bounds-checked default index.
- **The about-box data.** This is the information lines of `AboutBoxInformation`, and the word wrapping and HTML layout of `MultilineLabel`.

Java's `null` is `Option.None` throughout (`JavaLang.Option`). The DOM is an immutable tree (`XmlTree`). Mutators return the changed element instead of changing it in place.

The file system has two models:

- For XML files, it is a map from names to contents. A fault oracle decides whether each write, rename and delete succeeds.
- For directories, it is a map from absolute paths to directory or regular file. The oracles decide `mkdir` and `delete`.

Font metrics, border insets, parsing and serialisation are parameters.

Modules and files:

| Module | File | Contents |
|---|---|---|
| `JavaLang` | `java_lang.dfy` | `Option`, `int`/`long` ranges, `Integer.parseInt`/`Long.parseLong` on decimal text, ASCII case folding, `String.join` |
| `XmlTree` | `xml_tree.dfy` | elements and text nodes, `getElementsByTagName`, `getTextContent`, `normalize` |
| `XmlHelper` | `xml_helper.dfy` | the static DOM helpers of `XMLHelper` |
| `XmlStore` | `xml_store.dfy` | `readXMLDocument` and `writeXMLDocument` over a file map |
| `Directories` | `directories.dfy` | `DirectoryManager` |
| `CompoundFileFilter` | `file_filter.dfy` | `CompoundFileFilter` |
| `AboutBoxInformation` | `about_box.dfy` | the information lines of `AboutBoxInformation` |
| `MultilineLabel` | `multiline_label.dfy` | `MultilineLabel` |

## Model

| member | source | states |
|---|---|---|
| JavaLang.ParseInt32 | src/org/ezze/utils/io/XMLHelper.java:689-704 | `Integer.parseInt`: a value only for an optionally signed decimal literal whose value is in the 32-bit range, and then exactly that value |
| JavaLang.ParseInt64 | src/org/ezze/utils/io/XMLHelper.java:733-748 | `Long.parseLong`: the same with the 64-bit range |
| JavaLang.ParseDecimalString | src/org/ezze/utils/io/XMLHelper.java:689-704 | the decimal text `Integer.toString` writes for any integer parses back to that integer |
| JavaLang.ParseInt32String | src/org/ezze/utils/io/XMLHelper.java:689-704 | every 32-bit integer written as decimal text is read back by the 32-bit parse |
| JavaLang.ParseInt64String | src/org/ezze/utils/io/XMLHelper.java:733-748 | every 64-bit integer written as decimal text is read back by the 64-bit parse |
| XmlTree.ElementsByTagName | src/org/ezze/utils/io/XMLHelper.java:483 | every element returned carries the tag, or any tag for `"*"` |
| XmlTree.ElementsByTagNameMembers | src/org/ezze/utils/io/XMLHelper.java:483 | an element is in the list exactly when it matches the tag and lies strictly below the element |
| XmlTree.ElementsByTagNameIsFilter | src/org/ezze/utils/io/XMLHelper.java:571 | the list for a tag is the list for `"*"` with the other tags filtered out, so document order is kept |
| XmlTree.NormalizeKeepsText | src/org/ezze/utils/io/XMLHelper.java:337 | normalising does not change an element's text content |
| XmlTree.NormalizeIsNormal | src/org/ezze/utils/io/XMLHelper.java:337 | after normalising, no text node is empty and no two text nodes are adjacent |
| XmlTree.NormalizeIdempotent | src/org/ezze/utils/io/XMLHelper.java:337 | normalising twice is normalising once |
| XmlTree.ElementChildren | src/org/ezze/utils/io/XMLHelper.java:322-334 | the element children are exactly the children that are elements |
| XmlTree.ElementChildrenSingle | src/org/ezze/utils/io/XMLHelper.java:322-334 | one child is kept exactly when it is an element |
| XmlTree.ElementChildrenConcat | src/org/ezze/utils/io/XMLHelper.java:322-334 | stripping the text children of two runs of children and joining gives the same as stripping the joined run, so order and multiplicity are kept |
| XmlTree.NormalizeKeepsSkeleton | src/org/ezze/utils/io/XMLHelper.java:337 | normalising keeps every element's tag, attributes and the nesting and order of its element children; only text nodes change |
| XmlTree.SkeletonOfElementChildren | src/org/ezze/utils/io/XMLHelper.java:322-334 | dropping the text children does not change the element structure below them |
| XmlTree.ElementChildrenOfPrefix | src/org/ezze/utils/io/XMLHelper.java:518-533 | the element children of a prefix of the children are a prefix of the element children |
| XmlHelper.GetDocumentElement | src/org/ezze/utils/io/XMLHelper.java:460-466 | `null` for a missing document; otherwise the document's root, which is `null` exactly when the document has none |
| XmlHelper.GetChildrenCount | src/org/ezze/utils/io/XMLHelper.java:478-485 | 0 for a missing element or name; otherwise the number of descendants matching the tag, which is 0 exactly when none matches |
| XmlHelper.GetChildElementByTag | src/org/ezze/utils/io/XMLHelper.java:566-576 | a result exactly when the index is within the count; it is the index-th matching descendant in document order |
| XmlHelper.GetFirstChildElementByTag | src/org/ezze/utils/io/XMLHelper.java:548-551 | a result exactly when some descendant matches, and it is the first of them in document order |
| XmlHelper.GetChildElementWithAttribute | src/org/ezze/utils/io/XMLHelper.java:593-610 | `None` exactly when no matching descendant has the attribute with that value; otherwise the first one in document order that does |
| XmlHelper.GetChildElementAt | src/org/ezze/utils/io/XMLHelper.java:510-536 | as written: `None` outside the child-node range, otherwise the first child node if it is an element, whatever the index |
| XmlHelper.GetFirstChildElement | src/org/ezze/utils/io/XMLHelper.java:495-498 | a result exactly when the first child node is an element, and it is that first child node |
| XmlHelper.ElementChildAt | src/org/ezze/utils/io/XMLHelper.java:510-536 | corrected: the index-th child that is an element, `None` past the last one |
| XmlHelper.PositionalLookupReadsFirstItem | src/org/ezze/utils/io/XMLHelper.java:523 | with leading indentation text, the as-written lookup finds nothing where the corrected one finds the element; for index 1 of two elements, it returns the first |
| XmlHelper.AddChildElement | src/org/ezze/utils/io/XMLHelper.java:639-646 | `null` for any missing argument; otherwise a new empty element with the tag becomes the last child, and the earlier children are kept |
| XmlHelper.AddRootChildElement | src/org/ezze/utils/io/XMLHelper.java:622-625 | `null` without a document, a root or a name; otherwise a new empty element with the tag becomes the root's last child, and the root keeps its tag, attributes and earlier children |
| XmlHelper.SetElementText | src/org/ezze/utils/io/XMLHelper.java:996-1002 | nothing changes for `null`; otherwise the element's text content becomes the text, with at most one text child and none for `""`; tag and attributes are kept |
| XmlHelper.SetElementAttribute | src/org/ezze/utils/io/XMLHelper.java:1014-1020 | the attribute is set and reads back as the value, also for `""`; every other attribute and the children are unchanged |
| XmlHelper.GetElementText | src/org/ezze/utils/io/XMLHelper.java:656-662 | `null` exactly for a missing element, otherwise its text content |
| XmlHelper.GetElementTextOr | src/org/ezze/utils/io/XMLHelper.java:674-678 | the default exactly for a missing element |
| XmlHelper.GetElementInteger | src/org/ezze/utils/io/XMLHelper.java:689-704 | `null` exactly when the element is missing, or its text is not a decimal literal within the 32-bit range |
| XmlHelper.GetElementIntegerOr | src/org/ezze/utils/io/XMLHelper.java:718-722 | the default exactly where the plain getter gives `null` |
| XmlHelper.GetElementLong | src/org/ezze/utils/io/XMLHelper.java:733-748 | the same as the integer getter, with the 64-bit range |
| XmlHelper.GetElementLongOr | src/org/ezze/utils/io/XMLHelper.java:762-766 | the default exactly where the plain getter gives `null` |
| XmlHelper.GetElementBoolean | src/org/ezze/utils/io/XMLHelper.java:821-842 | `null` only for a missing element; true exactly for `true`, `yes` or `1` in any case |
| XmlHelper.GetElementBooleanOr | src/org/ezze/utils/io/XMLHelper.java:856-860 | the default only for a missing element |
| XmlHelper.GetElementAttribute | src/org/ezze/utils/io/XMLHelper.java:872-878 | `null` exactly for a missing element or name; an unset attribute reads as `""` |
| XmlHelper.GetElementAttributeOr | src/org/ezze/utils/io/XMLHelper.java:892-896 | the default only for a missing element or name; an unset attribute still gives `""` |
| XmlHelper.GetElementAttributeInteger | src/org/ezze/utils/io/XMLHelper.java:908-923 | a value exactly for a set attribute whose text parses as a 32-bit decimal, and then the parsed value |
| XmlHelper.GetElementAttributeIntegerOr | src/org/ezze/utils/io/XMLHelper.java:937-941 | the default for a missing element, name or attribute, or for unparseable text |
| XmlHelper.GetElementAttributeBoolean | src/org/ezze/utils/io/XMLHelper.java:953-968 | true exactly for a set attribute equal to `true` in any case |
| XmlHelper.GetElementAttributeBooleanOr | src/org/ezze/utils/io/XMLHelper.java:982-986 | the default only for a missing element or name |
| XmlHelper.IntegerTextRoundTrip | src/org/ezze/utils/io/XMLHelper.java:689-704 | an `int` stored as element text reads back as the same `int` |
| XmlHelper.LongTextRoundTrip | src/org/ezze/utils/io/XMLHelper.java:733-748 | a `long` stored as element text reads back as the same `long` |
| XmlHelper.BooleanTextRoundTrip | src/org/ezze/utils/io/XMLHelper.java:821-842 | a boolean stored as element text reads back as the same boolean |
| XmlHelper.IntegerAttributeRoundTrip | src/org/ezze/utils/io/XMLHelper.java:908-923 | an `int` stored as an attribute reads back as the same `int` |
| XmlHelper.BooleanAttributeRoundTrip | src/org/ezze/utils/io/XMLHelper.java:953-968 | a boolean stored as an attribute reads back as the same boolean |
| XmlStore.Delete | src/org/ezze/utils/io/XMLHelper.java:423 | deletion succeeds only for an existing file the platform lets go, and removes only that file |
| XmlStore.Rename | src/org/ezze/utils/io/XMLHelper.java:429-436 | a successful rename moves the content to the new name and leaves every other file alone; a failed one changes nothing |
| XmlStore.ReadXmlDocument | src/org/ezze/utils/io/XMLHelper.java:75-131 | an existing file is parsed; a missing one gives a document only when creation is asked for, with a root only for a non-empty root tag |
| XmlStore.ReadExistingXmlDocument | src/org/ezze/utils/io/XMLHelper.java:43-46 | never creates: a missing file gives `null` |
| XmlStore.PrepareForWrite | src/org/ezze/utils/io/XMLHelper.java:322-337 | the root keeps its tag and attributes; its children are its element children, in order, each normalised, so the tags, attributes and nesting of every element are kept; text content below the root is kept; the tree is normal |
| XmlStore.PrepareForWriteIdempotent | src/org/ezze/utils/io/XMLHelper.java:322-337 | preparing an already prepared document changes nothing |
| XmlStore.StagingName | src/org/ezze/utils/io/XMLHelper.java:359 | with a temporary file the output goes to the name plus `~`, a different file; otherwise to the name itself |
| XmlStore.BackupName | src/org/ezze/utils/io/XMLHelper.java:420-421 | the backup name is the name with a trailing `.xml` (in any case) replaced by `.backup.xml`, or else the name followed by `.backup.xml`: prefix, suffix and length are all fixed |
| XmlStore.NamesDistinct | src/org/ezze/utils/io/XMLHelper.java:420-421 | the target, staging and backup names are three different files |
| XmlStore.Commit | src/org/ezze/utils/io/XMLHelper.java:414-449 | as written: success holds exactly when the staging file is promoted, and then the target holds the staged content; other files are untouched; each failure phase is given, including a failed backup move keeping the old target and a failed rollback losing it |
| XmlStore.WriteXmlDocument | src/org/ezze/utils/io/XMLHelper.java:302-450 | rejects a missing document, name or root without touching anything; an open failure changes nothing; an interrupted write leaves only the staging file changed; on success the target holds the serialised prepared document; the previous target survives every failure before the backup move; once the staged write succeeds, the outcome, files and phase are those of the commit on the staged files |
| XmlStore.CommitKeepingBackup | src/org/ezze/utils/io/XMLHelper.java:423-449 | corrected commit: if the target existed, the new content is in place, or the old content is under the target or the backup name |
| XmlStore.CommitWhenOnlyBackupMoveWorks | src/org/ezze/utils/io/XMLHelper.java:423-449 | on `a.xml` = "old", `a.xml~` = "new", when only the move to the backup succeeds, the as-written commit fails with a failed rollback and leaves only `a.xml~` |
| XmlStore.CommitKeepingBackupWhenOnlyBackupMoveWorks | src/org/ezze/utils/io/XMLHelper.java:423-449 | on the same files and platform, the corrected commit keeps "old" as `a.backup.xml` |
| XmlStore.CommitCanLosePreviousFile | src/org/ezze/utils/io/XMLHelper.java:433-440 | when only the move to the backup succeeds, the as-written commit keeps the old content in no file; the corrected one keeps it as the backup |
| Directories.Parent | src/org/ezze/utils/io/DirectoryManager.java:39-41 | `getParent`: the path without its last segment; `null` for the empty name or a relative single name |
| Directories.Absolute | src/org/ezze/utils/io/DirectoryManager.java:171 | the resolved path is absolute, and an absolute path resolves to itself |
| Directories.Mkdir | src/org/ezze/utils/io/DirectoryManager.java:48 | `mkdir` succeeds exactly for a missing entry whose parent is a directory, with the platform's consent, and adds only that directory |
| Directories.ChainOfDirectory | src/org/ezze/utils/io/DirectoryManager.java:34-35 | on a consistent disk every ancestor of a directory is a directory |
| Directories.CreateDirectory | src/org/ezze/utils/io/DirectoryManager.java:24-49 | false without change for `null` or `""`; true without change for an existing directory; false without a parent; on success the name is a directory; it only adds directories on the path, and only ones the platform lets `mkdir` make; for a non-empty name it succeeds exactly when the name is a directory or, going up, is missing and may be made until an existing directory is reached |
| Directories.CreateDirectoryKeepsConsistent | src/org/ezze/utils/io/DirectoryManager.java:24-49 | on a consistent disk the result is consistent, and on success the name and all its ancestors are directories |
| Directories.FindClosestExistingDirectory | src/org/ezze/utils/io/DirectoryManager.java:169-185 | `null` exactly when no entry of the resolved path's parent chain is a directory; otherwise the first one that is |
| Directories.Delete | src/org/ezze/utils/io/DirectoryManager.java:73 | `delete` succeeds exactly for an existing regular file or empty directory with the platform's consent |
| Directories.DeleteKeepsConsistent | src/org/ezze/utils/io/DirectoryManager.java:73 | deleting never leaves an entry whose parent is gone |
| Directories.NothingBelowMissing | src/org/ezze/utils/io/DirectoryManager.java:59-77 | on a consistent disk nothing lies below a path that is not there |
| Directories.RemoveDirectory | src/org/ezze/utils/io/DirectoryManager.java:59-77 | false without change for `null` or `""`; success exactly when the name was a directory and is gone; nothing outside the tree is removed; on a consistent disk, success leaves nothing below it; only entries the platform lets go are removed; on a consistent disk it succeeds for a directory exactly when the platform lets every entry of its tree go |
| Directories.RemoveEntry | src/org/ezze/utils/io/DirectoryManager.java:111-117 | one listed entry: a file is removed exactly when the platform allows it; a directory is removed recursively; only the entry's own tree is removed, and only entries the platform lets go; on a consistent disk it is removed whenever the platform lets every entry of its tree go |
| Directories.RemoveDirectoryFiles | src/org/ezze/utils/io/DirectoryManager.java:90-122 | false without change for `null`, `""` or a non-directory; otherwise true exactly when every accepted entry is gone; only those entries' trees are removed, and only entries the platform lets go; deletable accepted files are gone; consistency is kept; on a consistent disk it is true whenever the platform lets everything below the directory go |
| Directories.ListedCompose | src/org/ezze/utils/io/DirectoryManager.java:111-117 | handling one entry and then the rest gives the loop's progress over all of them; the result conjunction is true exactly when each part is |
| Directories.RemoveListed | src/org/ezze/utils/io/DirectoryManager.java:109-119 | the `&=` loop over listed entries: true exactly when every one is gone, with the loop's progress kept, including that only entries the platform lets go are removed; true whenever every listed tree may be deleted |
| Directories.TrimBackslashes | src/org/ezze/utils/io/DirectoryManager.java:138-139 | the result is the longest prefix not ending in a backslash; everything dropped is a backslash |
| Directories.TruncateSlashes | src/org/ezze/utils/io/DirectoryManager.java:132-142 | `null` stays `null`; otherwise the longest prefix not ending in a backslash, with forward slashes kept |
| Directories.TruncateSlashesIdempotent | src/org/ezze/utils/io/DirectoryManager.java:132-142 | truncating twice is truncating once |
| CompoundFileFilter.Empty | src/org/ezze/utils/io/CompoundFileFilter.java:19-36 | a new filter has no filters, default index -1 and the description "Undescribed files" |
| CompoundFileFilter.Add | src/org/ezze/utils/io/CompoundFileFilter.java:60-67 | the filters afterwards are the old ones plus the argument if it is not `null`; the old order is a prefix; validity is kept |
| CompoundFileFilter.FirstIndex | src/org/ezze/utils/io/CompoundFileFilter.java:48-49 | the position of the first occurrence |
| CompoundFileFilter.Create | src/org/ezze/utils/io/CompoundFileFilter.java:45-52 | the result is valid and holds exactly the non-`null` filters of the list, each once, in order of first occurrence |
| CompoundFileFilter.Accept | src/org/ezze/utils/io/CompoundFileFilter.java:71-83 | a file is accepted exactly when some filter accepts it |
| CompoundFileFilter.SetDescription | src/org/ezze/utils/io/CompoundFileFilter.java:97-103 | `null` keeps the old description; nothing else changes |
| CompoundFileFilter.SetDefaultIndex | src/org/ezze/utils/io/CompoundFileFilter.java:130-136 | the index is taken exactly when it is a position in the list; otherwise nothing changes; validity is kept |
| CompoundFileFilter.ApplyAllValid | src/org/ezze/utils/io/CompoundFileFilter.java:60-136 | any run of operations keeps the list duplicate-free and the default index -1 or in range |
| CompoundFileFilter.FreshStaysValid | src/org/ezze/utils/io/CompoundFileFilter.java:34-36 | a new filter stays valid however it is used |
| AboutBoxInformation.GetInformationLine | src/org/ezze/utils/ui/aboutbox/AboutBoxInformation.java:231-237 | a line exactly for an index in `[0, count)`, and it is the line at that position |
| AboutBoxInformation.AddInformationLine | src/org/ezze/utils/ui/aboutbox/AboutBoxInformation.java:184-210 | a `null` value adds nothing; otherwise the count grows by one, the new line is last, and earlier lines are unchanged |
| AboutBoxInformation.AddValue | src/org/ezze/utils/ui/aboutbox/AboutBoxInformation.java:152-155 | the same, for a line with neither title nor link |
| AboutBoxInformation.AddTitledValue | src/org/ezze/utils/ui/aboutbox/AboutBoxInformation.java:167-170 | the same, for a line without a link |
| AboutBoxInformation.CountCountsValues | src/org/ezze/utils/ui/aboutbox/AboutBoxInformation.java:218-221 | the count after a run of adds is the count before plus the number of non-`null` values |
| AboutBoxInformation.AddValuesAppends | src/org/ezze/utils/ui/aboutbox/AboutBoxInformation.java:184-210 | adding a run of values appends one line per non-`null` value, in order, after the existing lines |
| AboutBoxInformation.FreshAddValues | src/org/ezze/utils/ui/aboutbox/AboutBoxInformation.java:55-62 | a new object fed a run of values holds exactly the non-`null` values, in order |
| MultilineLabel.SplitAtSpacesJoin | src/org/ezze/utils/ui/aboutbox/MultilineLabel.java:64 | joining the pieces of a split with single spaces gives back the text |
| MultilineLabel.SplitJoin | src/org/ezze/utils/ui/aboutbox/MultilineLabel.java:64 | `split(" ")` of non-empty words without spaces, joined by single spaces, gives back the words |
| MultilineLabel.Greedy | src/org/ezze/utils/ui/aboutbox/MultilineLabel.java:70-91 | lines already emitted are kept; the lines are non-empty; every line joining two or more words fits, and so does each of its prefixes that ends at a word boundary and joins two or more words, since each was measured as the line grew |
| MultilineLabel.WrapLines | src/org/ezze/utils/ui/aboutbox/MultilineLabel.java:64-91 | the lines of a text: none is empty, and every prefix of a line that ends at a word boundary and joins two or more words fits |
| MultilineLabel.PrefixesFitExtend | src/org/ezze/utils/ui/aboutbox/MultilineLabel.java:77-79 | adding a word after a space, when the longer line fits, keeps every measured prefix fitting |
| MultilineLabel.RefusedPrefixBlocksLine | src/org/ezze/utils/ui/aboutbox/MultilineLabel.java:76-84 | a line whose first two words were refused is not a wrapped line, even if the whole line fits |
| MultilineLabel.WrapKeepsText | src/org/ezze/utils/ui/aboutbox/MultilineLabel.java:70-91 | the wrapped lines joined by spaces are the words joined by spaces |
| MultilineLabel.WrapIsMaximal | src/org/ezze/utils/ui/aboutbox/MultilineLabel.java:77-84 | no line could have taken the next line's first word and still fit |
| MultilineLabel.WrapNothingFits | src/org/ezze/utils/ui/aboutbox/MultilineLabel.java:77-84 | when no pair of words fits, every word gets its own line |
| MultilineLabel.HtmlBodyJoins | src/org/ezze/utils/ui/aboutbox/MultilineLabel.java:93-101 | the `<br />` loop joins the lines with `<br />` |
| MultilineLabel.Lines | src/org/ezze/utils/ui/aboutbox/MultilineLabel.java:58-91 | no shown line is empty |
| MultilineLabel.SetText | src/org/ezze/utils/ui/aboutbox/MultilineLabel.java:53-105 | `null` changes nothing; otherwise only the shown text changes, to the wrapped lines joined by `<br />` inside `<html><div>`, and to the empty HTML for `""` |
| MultilineLabel.Create | src/org/ezze/utils/ui/aboutbox/MultilineLabel.java:31-36 | keeps the text, maximum width, font and insets; a `null` text shows the empty HTML, other text shows its wrapped lines |
| MultilineLabel.CreateDefault | src/org/ezze/utils/ui/aboutbox/MultilineLabel.java:26-29 | the maximum width is 200; font and insets are kept; a `null` text shows the empty HTML, other text its lines wrapped at width 200 |
| MultilineLabel.CreateEmpty | src/org/ezze/utils/ui/aboutbox/MultilineLabel.java:21-24 | empty text at width 200 shows the empty HTML |
| MultilineLabel.SetFont | src/org/ezze/utils/ui/aboutbox/MultilineLabel.java:39-43 | the constructor's text is wrapped again with the new font; with a `null` constructor text the shown text is unchanged |
| MultilineLabel.SetBorder | src/org/ezze/utils/ui/aboutbox/MultilineLabel.java:46-50 | the constructor's text is wrapped again with the new insets; with a `null` constructor text the shown text is unchanged |
| MultilineLabel.SetTextIgnoresShown | src/org/ezze/utils/ui/aboutbox/MultilineLabel.java:53-105 | what `setText` shows does not depend on what was shown before |
| MultilineLabel.RewrapForgetsSetText | src/org/ezze/utils/ui/aboutbox/MultilineLabel.java:39-50 | after `setFont` or `setBorder`, a text set since construction is lost and the constructor's text is shown again |
| MultilineLabel.LinesKeepText | src/org/ezze/utils/ui/aboutbox/MultilineLabel.java:58-91 | for well-spaced text, the shown lines joined by spaces give back the text |

## Left out

- Parsing and serialising XML (JAXP builders and transformers) are opaque function parameters. The charset and indent options of `writeXMLDocument` are folded into the serialiser.
- The `InputStream` and `InputSource` overloads of `readXMLDocument` only parse, so they add nothing beyond the parser parameter.
- `getElementDouble` and its default form are left out. Java's double parsing and floating point are outside the model.
- `Integer.parseInt` and `Long.parseLong` accept Unicode digits. The model accepts ASCII digits only.
- `toLowerCase` and `equalsIgnoreCase` fold ASCII letters only. For the fixed words compared against, this gives the same answers.
- `DOMException` is not modelled. This covers an invalid tag or attribute name in `createElement` and `setAttribute`.
- XmlHelper.GetChildElementWithAttribute: what `hasAttribute(null)` does depends on the DOM implementation, and some implementations throw. That failure is not modelled; a `null` attribute name matches nothing.
- Setting empty element text: DOM `setTextContent("")` adds no text node, so the element ends with no children. This is what the code does through DOM, not a single empty text node.
- XmlStore.WriteXmlDocument: it follows the code as written, including the backup deletion after a failed rollback (see Findings). The corrected commit is `XmlStore.CommitKeepingBackup`.
- XmlStore.Commit: the platform's `delete` answer depends only on the file name. The stale-backup delete at the start of the commit and the final backup delete therefore get the same answer.
- XmlHelper.GetChildElementAt and XmlHelper.GetFirstChildElement: they follow the code as written (see Findings). The corrected lookup is `XmlHelper.ElementChildAt`.
- Directories: `listFiles` returning `null` on an I/O error is not modelled; the Java code would throw on it. The order in which `listFiles` returns entries is left open: entries are taken from a set in any order.
- Directories.FindClosestExistingDirectory: a `null` file throws `NullPointerException` in Java and has no counterpart. The `String` overload only adds `getAbsolutePath`.
- Directories: path syntax, drive letters, `.` and `..`, symbolic links and file-system permissions are not modelled. Paths are lists of name segments. Relative names resolve against a working directory given as a parameter.
- CompoundFileFilter: `getDescription`, `getFileFilters` and `getDefaultFileFilterIndex` are plain field reads. `getFileFilters` hands out the mutable list itself, and a caller can break the duplicate-free invariant through it. The model does not expose the list.
- CompoundFileFilter.Accept: what a filter thinks of a file is a predicate parameter; `File` itself is not modelled.
- AboutBoxInformation: the abstract getters (margins, widths, image, vendor, name, version, description, button text) are left to subclasses and are not modelled.
- MultilineLabel: font metrics are a width function and the border insets are numbers. Swing painting and `JLabel` state other than the shown text are not modelled.
- MultilineLabel.CreateDefault: `JLabel`'s own constructor calls the overridden `setText("")` before the fields are set. The model starts from the empty HTML that call shows.
- `FileManager`, `ApplicationPath`, `SingleInstanceApplication`, `FileBrowser`, `AboutBox` and the listeners are not part of this model. They are file copying, locating the application's directory, file locking, and Swing dialogs.

## Findings

| source | as written | input that shows it | evidently intended | confidence | as-written member | corrected member |
|---|---|---|---|---|---|---|
| src/org/ezze/utils/io/XMLHelper.java:523 | the loop of `getChildElement(e, index)` reads `item(0)` on every pass | `<list>` with indentation text before `<item/>`, index 0, returns `null`; two element children `a`, `b`, index 1, returns `a` | read `item(nodesCounter)` and return the index-th element child | high (not executed) | XmlHelper.GetChildElementAt, XmlHelper.PositionalLookupReadsFirstItem | XmlHelper.ElementChildAt |
| src/org/ezze/utils/io/XMLHelper.java:433-440 | after the promotion and the rollback both fail, the backup holding the previous file is still deleted | `a.xml` = "old", `a.xml~` = "new"; only the rename `a.xml` to `a.backup.xml` succeeds: "old" is in no file afterwards | delete the backup only once the new file is in place | medium (not executed) | XmlStore.Commit, XmlStore.CommitCanLosePreviousFile | XmlStore.CommitKeepingBackup |
