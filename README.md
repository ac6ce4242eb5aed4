# Watermark manager: verified model of its file-naming and cleanup logic

The watermark manager is an interactive Node.js script (`app.js`). It asks for
an image in the `img/` folder, optionally edits it (brighter, more contrast,
black and white, inverted), and stamps a text or image watermark on it. The
pixel work belongs to an image library and the questions to a prompt library.
What the script decides for itself is modelled here:

- **Naming** (`naming.dfy`): `makeNameImg` and `makeNameEditImg` split the
  picked name on `.`. They rebuild it as `parts[0]` + tag + `parts[1]`, with the
  tag `-with-watermark.` or `-edit.`. The JavaScript operations they use are in
  `js_string.dfy`: `split` on one character (with `join` as its proved inverse),
  `indexOf`, and `slice`.
- **Pipeline** (`pipeline.dfy`): the edit stage writes to `./img/` + the edited
  name. It then recovers the bare name with `slice(6)` and hands it to the
  watermark stage, which writes `./img/` + the watermarked name.
- **Cleanup** (`cleanup.dfy`): `checkFolder` walks the folder listing. It
  deletes every entry whose first `-edit.` is at an index above 0. The folder is
  a class holding the listing. `CheckFolder` loops over a snapshot of it and
  calls `Remove` (the model of `fs.rmSync`) on each swept entry.
- **Overlay placement** (`overlay.dfy`): the image watermark's top-left corner
  is `W/2 - w/2`, `H/2 - h/2`. The sizes are whole numbers and the offsets are
  exact reals.

The code accepts any picked name, not only one with exactly one dot:
- A name without a dot gets the literal extension `undefined`. `parts[1]` is
  `undefined` there, and JavaScript's `+` turns it into that word. For example,
  `test` becomes `test-with-watermark.undefined`.
- With more than one dot, everything from the second dot on is dropped.

The model also shows that an edited intermediate is swept exactly when the
picked name is non-empty and does not start with a dot. For `.jpg`, the
intermediate `-edit.jpg` has its marker at index 0, so it stays in the folder.

## Model

| member | source | states |
|---|---|---|
| `JsString.IndexOf` | app.js:156 | `indexOf` gives -1 exactly when the pattern occurs nowhere. Otherwise it gives an index where the pattern occurs, and the pattern occurs at no earlier index. |
| `JsString.Split` | app.js:72 | `split('.')` gives at least one piece. No piece contains the separator, and joining the pieces with the separator gives back the input. |
| `JsString.SplitJoin` | app.js:77 | Splitting undoes joining separator-free pieces. Together with `Split`'s contract, `split` and `join` are inverses. |
| `JsString.SplitAfterFirst` | app.js:72 | A separator-free prefix followed by the separator splits off as exactly the first piece. |
| `JsString.SliceAfterPrefix` | app.js:124 | `slice(n)` on a string that starts with an n-character prefix gives exactly what follows the prefix. |
| `Naming.BaseAndExtensionInName` | app.js:72 | Without a dot, `parts[0]` is the whole name and `parts[1]` reads as "undefined". With a dot, `parts[0]` is the text before the first dot, and `parts[1]` is the text after it, up to the next dot or the end. |
| `Naming.BaseNameEmpty` | app.js:72 | `parts[0]` is empty exactly when the name is empty or starts with a dot. |
| `Naming.SingleDotNames` | app.js:71-79 | For `base.ext` with one dot: `base-with-watermark.ext` and `base-edit.ext`. |
| `Naming.LaterSegmentsDropped` | app.js:71-79 | For `base.ext.rest`, whatever `rest` is, both names are built from `base` and `ext` alone. |
| `Naming.NoDotNames` | app.js:71-79 | A name without a dot gets the extension `undefined`: `name-with-watermark.undefined`, `name-edit.undefined`. |
| `Naming.DerivedNamesResplit` | app.js:71-79 | A derived name splits again into exactly two dot-free pieces: the base with `-with-watermark` or `-edit` appended, and the original extension. |
| `Cleanup.SurvivorsMembership` | app.js:153-161 | An entry survives cleanup exactly when it was listed and is not swept. Cleanup removes swept entries and nothing else. |
| `Cleanup.SurvivorsIdempotent` | app.js:153-161 | Cleaning an already cleaned listing changes nothing. |
| `Cleanup.SurvivorsDistinct` | app.js:154 | A listing without repeated names still has no repeated names after cleanup. |
| `Cleanup.Without` | app.js:158 | Deleting a name leaves no copy of it and keeps every other name that was listed, and only those. |
| `Cleanup.WithoutConcat` | app.js:158 | Deleting a name from two stretches of a listing is deleting it from each stretch. |
| `Cleanup.CleanupStep` | app.js:155-160 | One loop step (delete the entry if swept) extends the handled prefix by one entry. |
| `Cleanup.ImgFolder.constructor` | app.js:154 | The folder starts with the listing `readdirSync` returns, without repeated names. |
| `Cleanup.WithoutDistinct` | app.js:158 | Deleting a name keeps a listing free of repeated names. |
| `Cleanup.ImgFolder.Remove` | app.js:158 | `rmSync` on a listed name leaves the listing with that name gone and everything else in order, still without repeats. |
| `Cleanup.ImgFolder.CheckFolder` | app.js:153-161 | Afterwards the folder holds exactly the survivors of its old listing, in the old order, still without repeats. |
| `Cleanup.MarkerAtTagEnd` | app.js:156 | In base + tag + extension, with dot-free base and extension and a tag whose only dot ends it, `-edit.` can only occur where it ends at the tag's dot. |
| `Cleanup.EditMarkerAtBase` | app.js:78 | In an edited name, the first `-edit.` is at the length of the base name. |
| `Cleanup.EditNameSwept` | app.js:156 | An edited intermediate is swept exactly when the picked name is non-empty and does not start with a dot. |
| `Cleanup.WatermarkNameNotSwept` | app.js:73 | A watermarked name never contains `-edit.` (`indexOf` gives -1), so cleanup never deletes an output. |
| `Pipeline.RecoveredIsEditedName` | app.js:124 | `./img/` is six characters long, so `slice(6)` on the edit stage's path gives exactly the edited name. The watermark stage therefore writes `./img/` + the watermarked edited name. |
| `Pipeline.WatermarkOfEditedName` | app.js:125 | The watermarked name of an edited name is base + `-edit-with-watermark.` + extension. |
| `Pipeline.FinalNameAfterEdit` | app.js:189 | A run's final output is base + `-edit-with-watermark.` + extension after an edit, and base + `-with-watermark.` + extension without one. |
| `Pipeline.FinalNameSingleDot` | app.js:112 | For `b.e`: `b-edit-with-watermark.e` after an edit, `b-with-watermark.e` without one. |
| `Pipeline.CleanupAfterRun` | app.js:95-98 | Cleanup after a run keeps the run's output if it is listed. It removes the edited intermediate whenever the picked name is non-empty and does not start with a dot. |
| `Overlay.CentredPlacement` | app.js:56-57 | The offsets are `(W - w)/2` and `(H - h)/2`, so the overlay's centre is the image's centre and the opposite margins are equal. An overlay that fits lies inside the image; a larger one overhangs on both sides. |

## Left out

- The prompts (`answerAsk`, `inputImageAsk`, `makeWatermark`'s questions, `startApp`), the restart after success, and `process.exit`. These are interactive flow with no logic of their own.
- The filesystem calls `existsSync`, `readdirSync` and `rmSync`. The folder is a listing of names (`Cleanup.ImgFolder`), and `rmSync` is modelled as taking the name out of it.
- Cleanup.ImgFolder.Remove: assumes every removal succeeds. The real `rmSync` (called without `recursive`) throws on an entry it cannot delete, such as a directory named like `x-edit.y` or a file without delete permission. The throw ends `checkFolder`'s loop early and leaves the later swept entries in place; the model does not capture that.
- The log line `checkFolder` prints for each deleted entry is not modelled.
- Cleanup.ImgFolder.Valid: the listing is assumed to hold each name once, as a directory does.
- Every image-library operation (`read`, `loadFont`, `print`, `resize(100, AUTO)`, `composite` with its blend mode and opacity, `brightness`, `contrast`, `greyscale`, `invert`, `quality`, `writeAsync`). The overlay's size after resizing is an input of `Overlay.CentredPlacement`.
- The text watermark's layout: it is drawn by the image library's `print` over the whole image, with no arithmetic of the script's own.
- Overlay.CentredPlacement: offsets are exact reals; what the image library does with a half-pixel offset is not modelled.
- The `isNaN(Number(value))` check of the brightness and contrast stages. This is JavaScript number parsing, not logic of the script.
- The four edit kinds. They differ only in the pixel operation and all use the same naming, so the pipeline model has a single "edited" flag.
- Pipeline.CleanupAfterRun: assumes the stages run one after another, with cleanup after the watermark stage has read its input and written its output. In the code (app.js:95-98, 112-114) the watermark call is not awaited. It runs only up to its first `await Jimp.read(...)`, and `checkFolder()` then runs at once. On an edit run the watermark stage's input is the intermediate `base-edit.ext`. Cleanup can delete that file before it is read, and the run then ends in the generic "Something went wrong" message with no output. This race is not modelled.
- JavaScript strings are sequences of UTF-16 code units; the model uses Dafny characters and does not distinguish the two.
