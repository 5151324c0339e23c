# office-doc2pdf: batch dispatch, upload names and the folder view

A Dafny model of the core of `Word_Powerpoint_TO_pdf.py`, a Streamlit app that converts Word and PowerPoint files to PDF. The model covers three parts:

- **Batch classification and dispatch** (`Batch`, on top of `PurePaths`). This part decides which files of a folder walk are Office documents, where each PDF goes, and how `process_folder_recursive` sorts every file into `converted_files`, `skipped_files` or neither.
  - The walk is given as the sequence of entries it yields. Each entry carries its relative path, whether it is a file, and whether its conversion or copy succeeds.
  - The loop is a method proved equal to a fold of a per-entry specification, `Dispatch`.
  - Lemmas about the fold state the partition, fail-soft, append-only, mirrored and flattened properties.
- **Upload-name materialisation** (`UploadNames`). This part decides where `process_uploaded_files_with_structure` writes an uploaded file whose name may carry `/` or `\` separators.
  - Backslashes become slashes.
  - The name is then read the way `PurePath` reads it: empty and `.` segments vanish, and a leading slash makes the name absolute.
- **The detected folder structure** (`FolderTree`). This part covers `create_folder_structure_info` and `display_folder_structure`.
  - The nested dictionary becomes a tree. Each node is a sequence of entries in insertion order: a file list, or a named sub-directory.
  - `Display` produces one line per directory and one line per file name, and `CreateFolderStructureInfo` returns the list of lines the app would write.
  - The source files its file lists under the string key `_files`, which collides with a directory of that name (see Findings). `Insert` uses a tagged key instead. `InsertAsWritten` keeps the source's string keys, and a lemma proves the two agree whenever no directory is called `_files`.

Paths are sequences of segments (`PurePaths.Path`). `Suffix` and `Stem` follow `PurePath`: a name with no dot after its first character, or one that ends in a dot, has no suffix. Case conversion maps only the ASCII letters.

Record paths are kept as segment sequences instead of the `str()` of a path, so the separator a platform renders is not part of the model.

## Model

| member | source | states |
|---|---|---|
| PurePaths.ParentName | Word_Powerpoint_TO_pdf.py:110 | A non-empty path is its parent followed by its name, and the parent is one segment shorter. |
| PurePaths.StemSuffix | Word_Powerpoint_TO_pdf.py:75 | A name is its stem followed by its suffix. The suffix is empty, or it is a dot and at least one more character, with no further dot, and the stem is then non-empty. |
| PurePaths.PdfName | Word_Powerpoint_TO_pdf.py:75 | For a non-empty stem, `stem + ".pdf"` has suffix `.pdf` and gives back the same stem. |
| PurePaths.UpperOfLower | Word_Powerpoint_TO_pdf.py:121 | Upper-casing the lower-cased form gives the upper-cased original, so the recorded type depends only on the lower-cased suffix the classification compares. |
| Batch.ConverterFor | Word_Powerpoint_TO_pdf.py:78-83 | The Word converter is chosen exactly for `.doc`/`.docx` and the PowerPoint converter exactly for `.ppt`/`.pptx`, in any case. Some converter is chosen exactly when `is_valid_office_file` holds. |
| Batch.ConvertFileToPdf | Word_Powerpoint_TO_pdf.py:66-87 | Succeeds exactly for an Office file whose converter completes. The PDF lies directly in the output directory and keeps the stem, with suffix `.pdf`. A non-Office file fails with its suffix; a converter failure fails naming the converter. |
| Batch.ProcessFolderRecursive | Word_Powerpoint_TO_pdf.py:90-165 | Fails exactly when the root is not a directory, raising before anything is recorded. Otherwise the two lists it returns equal the fold of `Dispatch` over the walk, in walk order. |
| Batch.DispatchPartition | Word_Powerpoint_TO_pdf.py:102-163 | Per entry, the outcome is one of four. Excluded: exactly the non-files and `uploaded.zip`. Converted: exactly an Office or PDF file whose conversion or copy succeeds. Skipped under its own path: exactly a failed Office or PDF file and other non-quiet files. Ignored: exactly the quiet ones (dot-files, `.txt`, `.md`, `.log`). |
| Batch.UpperOfficeSuffix | Word_Powerpoint_TO_pdf.py:121 | The upper-cased lower-case Office suffixes are `.DOC`, `.DOCX`, `.PPT` and `.PPTX`. |
| Batch.OfficeKind | Word_Powerpoint_TO_pdf.py:121 | A suffix whose lower-cased form is an Office suffix upper-cases to one of the four upper-case Office suffixes. |
| Batch.OfficeRecord | Word_Powerpoint_TO_pdf.py:105-122 | A converted Office file gives a record with the original path. Its PDF lies in the chosen output directory, keeps the stem, has suffix `.pdf`, and its type is the upper-cased suffix, one of the four Office ones. |
| Batch.PdfRecord | Word_Powerpoint_TO_pdf.py:131-151 | A PDF whose copy succeeds is recorded with the original path, copied under its own name into the chosen output directory, with type `PDF (copied)`. |
| Batch.ConvertedLocation | Word_Powerpoint_TO_pdf.py:108-114 | Mirrored, a produced file sits in its original's directory chain. Flattened, it is a single segment under the output base. |
| Batch.AccumulateAppend | Word_Powerpoint_TO_pdf.py:98-165 | The lists of a walk are those of its first part followed by those of the rest. |
| Batch.AppendOnly | Word_Powerpoint_TO_pdf.py:118-163 | What is recorded after any prefix of the walk stays unchanged at the front of both final lists. |
| Batch.FailSoft | Word_Powerpoint_TO_pdf.py:126-129 | A failing conversion or copy appends that file's path to the skipped list, leaves the converted list as it was, and the loop carries on. |
| Batch.Partition | Word_Powerpoint_TO_pdf.py:102-163 | Converted plus skipped plus silently ignored equals the number of considered files, so each considered file lands in exactly one outcome. |
| Batch.RecordsHaveSources | Word_Powerpoint_TO_pdf.py:102-163 | Every converted record is the dispatch of some walked entry, and every skipped path is the path of a considered walked file. |
| Batch.FlattenedDepth | Word_Powerpoint_TO_pdf.py:112-114 | Flattened, every produced path has one segment, however deep the input. |
| Batch.MirroredStructure | Word_Powerpoint_TO_pdf.py:108-111 | Mirrored, every produced path has the directory chain of its original. |
| Batch.ExampleWordFile | Word_Powerpoint_TO_pdf.py:105-122 | `reports/q1.docx` becomes `reports/q1.pdf` when mirrored and `q1.pdf` when flattened, with type `.DOCX`. |
| Batch.ExampleCsvSkipped | Word_Powerpoint_TO_pdf.py:160-163 | A `.csv` file is reported as skipped. |
| Batch.ExampleQuietFiles | Word_Powerpoint_TO_pdf.py:160-163 | A `.log` file, and a dot-file called `.docx` (which has no suffix), are ignored without being reported. |
| Batch.ExamplePdfAndArchive | Word_Powerpoint_TO_pdf.py:103-151 | An upper-case `.PDF` is copied under its own name, and `uploaded.zip` is excluded. |
| UploadNames.Normalize | Word_Powerpoint_TO_pdf.py:183 | The replacement keeps the length and turns exactly the backslashes into slashes. |
| UploadNames.Split | Word_Powerpoint_TO_pdf.py:238 | `split('/')` yields at least one piece, and no piece contains a slash. |
| UploadNames.JoinSplit | Word_Powerpoint_TO_pdf.py:238 | Joining the pieces with `/` gives back the string. |
| UploadNames.SplitJoin | Word_Powerpoint_TO_pdf.py:238 | Splitting a `/`-join of slash-free pieces gives back the pieces. |
| UploadNames.NormalizeJoin | Word_Powerpoint_TO_pdf.py:181-183 | Normalising a `\`-join or a `/`-join of backslash-free segments gives their `/`-join. |
| UploadNames.KeptSegments | Word_Powerpoint_TO_pdf.py:184 | Only segments other than empty and `.` survive, all taken from the input. A path whose segments are all kept survives whole. |
| UploadNames.KeptSegmentsOne | Word_Powerpoint_TO_pdf.py:184 | A single segment survives exactly when it is neither empty nor `.`. |
| UploadNames.KeptSegmentsAppend | Word_Powerpoint_TO_pdf.py:184 | The kept segments of a concatenation are those of each part, in order. With `KeptSegmentsOne`, this fixes the result as the in-order filter of the input. |
| UploadNames.StagingPlacement | Word_Powerpoint_TO_pdf.py:177-189 | A staged name lies under the staging root as a chain of kept segments with no separator in any of them. A name without separators is placed as the single segment itself. |
| UploadNames.JoinedNameAnyPlacement | Word_Powerpoint_TO_pdf.py:181-189 | Any name of separator-free segments joined by `/` or `\` is placed at its kept segments, in order. It lands outside the staging root exactly when it starts with a separator. |
| UploadNames.ExampleMessySlashName | Word_Powerpoint_TO_pdf.py:181-187 | `./a//b.docx` drops its `.` and empty segments and is placed at `a`, `b.docx`. |
| UploadNames.ExampleMessyBackslashName | Word_Powerpoint_TO_pdf.py:181-187 | `.\a\\b.docx` is placed at the same two segments. |
| UploadNames.RootPlacement | Word_Powerpoint_TO_pdf.py:188-189 | A separator-free name is written directly under the staging root, or names the root itself when it is empty or `.`. |
| UploadNames.JoinedNamePlacement | Word_Powerpoint_TO_pdf.py:181-187 | Clean segments joined by `/` or by `\` are placed at exactly that chain of segments, so both separators give the same place. |
| UploadNames.ExampleSlashName | Word_Powerpoint_TO_pdf.py:181-187 | `a/b/c/notes.pptx` is placed at `a`, `b`, `c`, `notes.pptx`. |
| UploadNames.ExampleBackslashName | Word_Powerpoint_TO_pdf.py:181-187 | `a\b\c\notes.pptx` is placed at the same four segments. |
| FolderTree.Find | Word_Powerpoint_TO_pdf.py:242 | The lookup returns the first entry with the key, or the entry count when there is none. |
| FolderTree.FindPy | Word_Powerpoint_TO_pdf.py:242 | The same lookup by the source's string key. |
| FolderTree.NameParts | Word_Powerpoint_TO_pdf.py:235-238 | Every uploaded name yields at least one part, so a last part (the file name) exists. |
| FolderTree.InsertAppends | Word_Powerpoint_TO_pdf.py:240-249 | After inserting a file under a directory chain, that chain's file list is the old list with the file appended. |
| FolderTree.InsertFrame | Word_Powerpoint_TO_pdf.py:241-244 | Inserting under one chain leaves every other chain's file list unchanged, so existing directories are reused and not replaced. |
| FolderTree.InsertKeepsOrder | Word_Powerpoint_TO_pdf.py:242-243 | Existing entries keep their positions and keys, and at most one entry is added, at the end, as a dictionary's insertion order requires. |
| FolderTree.InsertWellFormed | Word_Powerpoint_TO_pdf.py:242-248 | Insertion keeps keys unique at every level, as they are in a dictionary. |
| FolderTree.BuildWellFormed | Word_Powerpoint_TO_pdf.py:232-254 | The whole structure has unique keys at every level. |
| FolderTree.BuildFiles | Word_Powerpoint_TO_pdf.py:233-254 | The file list at any directory chain holds exactly the files uploaded with that chain, in upload order. |
| FolderTree.RootName | Word_Powerpoint_TO_pdf.py:250-254 | A name without separators goes, whole, into the root file list. |
| FolderTree.JoinedNameParts | Word_Powerpoint_TO_pdf.py:235-238 | A name of separator-free segments joined by `/` or `\` files its last segment under the chain of the others. |
| FolderTree.InsertCountsOne | Word_Powerpoint_TO_pdf.py:246-254 | Each upload adds exactly one file name to the structure. |
| FolderTree.BuildCounts | Word_Powerpoint_TO_pdf.py:233-254 | The structure holds exactly as many file names as there were uploads. |
| FolderTree.FileLines | Word_Powerpoint_TO_pdf.py:265-266 | A file list becomes one file line per name, in order, at the current depth. |
| FolderTree.SlotsLinesCount | Word_Powerpoint_TO_pdf.py:263-269 | The display of a node has one file line per file name anywhere below it. |
| FolderTree.SlotLinesCount | Word_Powerpoint_TO_pdf.py:264-269 | The display of one entry has one file line per file name in it. |
| FolderTree.DisplayShowsEveryFile | Word_Powerpoint_TO_pdf.py:256-269 | The display of the built structure has as many file lines as there are uploads, and the file lines carry exactly the uploads' file names, each as often as it was uploaded. |
| FolderTree.AddFileAddsName | Word_Powerpoint_TO_pdf.py:246-249 | Adding a file to a node's list adds exactly that name to the node's file names. |
| FolderTree.InsertAddsName | Word_Powerpoint_TO_pdf.py:240-254 | Each insertion adds its file name to the structure's file names and nothing else. |
| FolderTree.UploadedFiles | Word_Powerpoint_TO_pdf.py:238-254 | The file name recorded for each upload, in upload order: its last part. |
| FolderTree.BuildNames | Word_Powerpoint_TO_pdf.py:233-254 | The built structure holds exactly the uploads' file names, each as often as it was uploaded. |
| FolderTree.FileLineNamesOfFiles | Word_Powerpoint_TO_pdf.py:265-266 | A file list is shown as its names, in order. |
| FolderTree.SlotsLinesNames | Word_Powerpoint_TO_pdf.py:263-269 | The file lines of a node's display carry exactly the file names below it. |
| FolderTree.SlotLinesNames | Word_Powerpoint_TO_pdf.py:264-269 | The same for one entry. |
| FolderTree.FileShownAtDepth | Word_Powerpoint_TO_pdf.py:263-269 | A file filed under a directory chain is shown that many levels below the node, and each directory of the chain is shown at its own level. |
| FolderTree.ShownAtDepth | Word_Powerpoint_TO_pdf.py:258-269 | The same, from the top level of the display. |
| FolderTree.UploadFiled | Word_Powerpoint_TO_pdf.py:233-254 | Every upload is filed in the list of its own directory chain. |
| FolderTree.UploadShownAtDepth | Word_Powerpoint_TO_pdf.py:233-269 | Every upload is shown as a file line at the depth of its directory chain, with a directory line for each directory of the chain at that directory's depth. |
| FolderTree.SlotsLinesDepth | Word_Powerpoint_TO_pdf.py:267-269 | No line of a node's display is shallower than that node's level, because sub-directories are shown one level deeper. |
| FolderTree.SlotLinesDepth | Word_Powerpoint_TO_pdf.py:267-269 | The same for one entry. |
| FolderTree.Indent | Word_Powerpoint_TO_pdf.py:269 | The prefix at depth d is 2·d spaces. |
| FolderTree.RenderAll | Word_Powerpoint_TO_pdf.py:263-269 | Every line is written in order, spelled as `{prefix}📄 {name}` or `{prefix}📁 {name}/`. |
| FolderTree.CreateFolderStructureInfo | Word_Powerpoint_TO_pdf.py:227-258 | No uploads write nothing. Otherwise the loop inserts every name in order, and the lines are the header followed by the display of the structure of all the names. |
| FolderTree.BuildNonEmpty | Word_Powerpoint_TO_pdf.py:256 | A non-empty upload gives a non-empty structure, so the header is always written. |
| FolderTree.InsertAsWrittenAgrees | Word_Powerpoint_TO_pdf.py:240-254 | When no directory is called `_files`, the source's string-keyed walk raises nothing and builds exactly the corrected structure. |
| FolderTree.BuildAsWrittenAgrees | Word_Powerpoint_TO_pdf.py:233-254 | An upload in which no name has a directory called `_files` is built by the source exactly as by the corrected model. |
| FolderTree.FileThenFilesDir | Word_Powerpoint_TO_pdf.py:242-249 | As written, a root file followed by `_files/…` indexes the root file list by a name (TypeError). |
| FolderTree.FilesDirThenFile | Word_Powerpoint_TO_pdf.py:252-254 | As written, `_files/…` followed by a root file calls `append` on a dictionary (AttributeError). |
| FolderTree.FileThenFilesDirCorrected | Word_Powerpoint_TO_pdf.py:233-254 | The corrected structure files the root file at the root and the other file under a directory called `_files`. |
| FolderTree.FilesDirCollision | Word_Powerpoint_TO_pdf.py:240-254 | For `x.docx` and `_files/y.docx`, the source raises in both upload orders while the corrected model files both names. |

## Left out

- The COM automation of Word and PowerPoint (lines 21-58) is left out. Whether a conversion or a PDF copy completes is the entry's `succeeds` flag.
- Creating output directories, `shutil.copy2` and the `st.success`/`st.info`/`st.warning` messages are file-system and UI effects, and are left out.
- Batch.ConvertFileToPdf: the error texts are not modelled. The source wraps both of its errors as `Failed to convert …` (lines 83-87); the model keeps only which error occurred.
- Batch.ProcessFolderRecursive: the order of `rglob` and the file system's answers to `is_dir`/`is_file` are inputs, not computed. Symbolic links are not modelled.
- Batch.FlattenedDepth: when flattening, two inputs with the same stem map to the same output path. The later write wins on disk, and the model records both without modelling the overwrite.
- Records hold segment sequences, not the `str()` that `relative_to` produces.
- Lower and upper case are mapped for ASCII letters only; Unicode case mapping is not modelled.
- UploadNames.StagingPlacement: names are parsed with POSIX `PurePath` rules. Windows drive letters and UNC prefixes, which make a Windows path absolute, are not modelled. A `..` segment is kept, as `PurePath` keeps it, so `InStaging` is a lexical place.
- Staging the uploads and then walking the staging folder is not composed into one property. The two halves are modelled separately.
- FolderTree.Insert: the walk down `current_level` (lines 240-244) is modelled on values by recursion, not as a loop over aliased dictionaries.
- The source's display of a structure in which a directory is called `_files` is not modelled. It would list that directory's keys as file names.
- The ZIP upload path (lines 272-326) is left out.
- The Streamlit page (lines 329-537) is left out.
- The commented-out copy of the program (lines 541-899) is left out.

## Findings

| source | as written | input that shows it | evidently intended | confidence | as-written member | corrected member |
|---|---|---|---|---|---|---|
| Word_Powerpoint_TO_pdf.py:240-254 | File lists and sub-directories share one dictionary, with the files under the string key `_files`, so a directory called `_files` is taken for the file list. | uploads `x.docx` then `_files/y.docx` (TypeError: a list indexed by a name), or `_files/y.docx` then `x.docx` (AttributeError: a dictionary has no `append`) | the structure shows a directory called `_files` like any other directory, holding its files | not executed; follows from Python's dictionary and list semantics | FolderTree.FilesDirCollision | FolderTree.BuildFiles |
