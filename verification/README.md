# convertex, modelled in Dafny

convertex is a browser application for converting and editing documents and
images. Almost all of its "processing" is simulated with timers. The logic
that is really there is the following:

- the watermark remover's threshold pass over a canvas's RGBA bytes;
- the per-page file lists and their simulated batch runs: the PDF
  compressor, Word-to-PDF, the photo compressor, image-to-PDF, the image
  size changer and the background changer;
- the PDF editor's page edits (rotation, zoom, filter, brightness,
  contrast);
- the image size changer's aspect-ratio lock;
- the preferences: the shell's dark-mode flag, the colour-mode hook, and
  the settings page.

This project models each of these as immutable state plus pure handler
functions, and proves what the pages promise.

Modules, one per source component, plus shared vocabulary:

- `Common`: `Option`, removal by position (`RemoveAt`) and by predicate
  (`Filter`), with their order-keeping lemmas.
- `JsNumber`: the JavaScript numbers the pages compute with.
  - Finite values are exact reals; there are also `NaN` and the two
    infinities.
  - Division by zero, `Math.round` and `NaN` comparisons are modelled
    explicitly.
- `Batch`: list updates at one index, and runs that finish entries in
  index order.
- `WatermarkRemover`, `PdfCompressor`, `PdfEditor`, `WordToPdf`: one
  module per page.
- `JobList`: the photo-compressor and image-to-PDF list. Entries snapshot
  the page's settings at the drop. The run completes them one per second.
  `PhotoCompressor` and `ImageToPdf` add their settings on top of it.
- `KeyedList`: the image-size-changer and background-changer list.
  Entries are found by object identity, modelled as a `key` from a
  counter. Each entry has its own button, which runs one job while the
  page is busy. `ImageSizeChanger` and `BackgroundChanger` add their
  settings on top of it.
- `LocalStorage`, `AppTheme`, `ColorMode`, `SettingsPage`: the
  preferences.

How time and the page are modelled:

- A timer-driven run is a sequence of page updates.
- `Snapshot`/`Step` give the page after any number of those updates.
- `Compress`/`Convert`/`Run` give the page at the end of the run.
- A disabled button, or a button that is not shown, is a click that
  changes nothing.

## Model

| member | source | states |
|---|---|---|
| `WatermarkRemover.SelectFile` | src/pages/converters/WatermarkRemover.tsx:13-25 | the error is cleared exactly when an image (MIME type starting `image/`) is picked, and the file is then selected; anything else sets the invalid-file message and keeps the previous selection |
| `WatermarkRemover.ImageTypeExamples` | src/pages/converters/WatermarkRemover.tsx:15 | `image/png` and `image/jpeg` are accepted; `application/pdf`, `image` and the empty type are refused |
| `WatermarkRemover.ThresholdPass` | src/pages/converters/WatermarkRemover.tsx:47-60 | the stride-four loop computes exactly the reference pass `Whiten`, and keeps the buffer's length |
| `WatermarkRemover.Whiten` | src/pages/converters/WatermarkRemover.tsx:47-60 | the reference pass, byte by byte, keeps the buffer's length |
| `WatermarkRemover.RemoveWatermark` | src/pages/converters/WatermarkRemover.tsx:28-66 | there is no result exactly when there is no canvas or 2-D context, or the image has a zero side (reading back a zero-sized canvas throws, and the caller reports it as a failure); otherwise the result has the image's width and height, a well-formed buffer, and the pass applied to the image's pixels |
| `WatermarkRemover.StartRemoval` | src/pages/converters/WatermarkRemover.tsx:68-73 | with no file selected nothing happens; otherwise the page turns busy and the error clears |
| `WatermarkRemover.FinishRemoval` | src/pages/converters/WatermarkRemover.tsx:83-104 | with a file selected, the page ends idle; the failure message is set exactly when no processed image came back |
| `WatermarkRemover.WhitenIdempotent` | src/pages/converters/WatermarkRemover.tsx:54-59 | for any threshold below 255, running the pass on its own output changes nothing |
| `WatermarkRemover.SliderPassIdempotent` | src/pages/converters/WatermarkRemover.tsx:164-172 | every threshold the 0..100 slider offers makes the pass idempotent |
| `WatermarkRemover.LowerThresholdWhitensMore` | src/pages/converters/WatermarkRemover.tsx:54 | a lower threshold whitens a superset of the pixels a higher one whitens |
| `WatermarkRemover.WhitenedPixels` | src/pages/converters/WatermarkRemover.tsx:47-54 | the pixels the pass whitens are named by their first byte, a multiple of four inside the buffer |
| `WatermarkRemover.WhiteIffPassed` | src/pages/converters/WatermarkRemover.tsx:54-58 | below 255, a pixel is white after the pass if and only if it passed the test |
| `WatermarkRemover.HigherSliderWhitensLess` | src/pages/converters/WatermarkRemover.tsx:54 | as written, the grey pixel (80, 80, 80) is whitened with the slider at 50 and left alone at 100 |
| `WatermarkRemover.SliderCutoff` | src/pages/converters/WatermarkRemover.tsx:161-174 | the corrected cutoff for a slider percentage stays in 0..255; it is 255 (nothing passes) exactly at 0 and 0 exactly at 100 |
| `WatermarkRemover.SliderCutoffAntitone` | src/pages/converters/WatermarkRemover.tsx:161-174 | a higher slider value never gives a higher cutoff |
| `WatermarkRemover.CorrectedSliderWhitensMore` | src/pages/converters/WatermarkRemover.tsx:174 | with the corrected cutoff, a higher slider value whitens a superset of the pixels a lower one whitens |
| `WatermarkRemover.CorrectedSliderOnGrey` | src/pages/converters/WatermarkRemover.tsx:174 | with the corrected cutoff, the grey pixel is left alone at 50 and whitened at 100, and a slider at 0 whitens nothing |
| `PdfCompressor.SetTargetSize` | src/pages/converters/PdfCompressor.tsx:176-181 | a value of at least 100 KB replaces the target; a smaller value or `NaN` is ignored, so a valid target stays valid |
| `PdfCompressor.LevelToSlider` | src/pages/converters/PdfCompressor.tsx:192 | the slider shows the level as a position in 0..2; with `SliderToLevel` it is a bijection |
| `PdfCompressor.SliderToLevel` | src/pages/converters/PdfCompressor.tsx:192-196 | slider positions 0, 1, 2 map to levels whose slider position is that same value |
| `PdfCompressor.LevelSliderRoundTrip` | src/pages/converters/PdfCompressor.tsx:192-196 | reading back the slider position of a level gives that level |
| `PdfCompressor.OnDrop` | src/pages/converters/PdfCompressor.tsx:48-61 | the page error clears; the old list is kept as a prefix; each dropped file gets one pending entry with its size as original size, compressed size 0, and the page's level and target in bytes at that moment |
| `PdfCompressor.RemoveFile` | src/pages/converters/PdfCompressor.tsx:70-72 | exactly the entry at the index is cut out and the others keep their order; an index that names no entry changes nothing |
| `PdfCompressor.StartAll` | src/pages/converters/PdfCompressor.tsx:76-83 | every entry becomes processing at 0 with its error cleared, with nothing else changed |
| `PdfCompressor.Snapshot` | src/pages/converters/PdfCompressor.tsx:85-137 | while the run is at entry i, the entries before i are finished, the ones after i are only started, and entry i is part-way through its own updates |
| `PdfCompressor.SnapshotStep` | src/pages/converters/PdfCompressor.tsx:109-136 | each step of the run is one update at the running index and touches nothing else |
| `PdfCompressor.SnapshotHandOver` | src/pages/converters/PdfCompressor.tsx:85-137 | the page after entry i's last update is the page before entry i+1's first: entries finish one at a time in index order |
| `PdfCompressor.SnapshotEnd` | src/pages/converters/PdfCompressor.tsx:85-138 | the page after the last entry's last update is exactly the list `Compress` ends with |
| `PdfCompressor.Compress` | src/pages/converters/PdfCompressor.tsx:74-138 | a button that is disabled (some entry processing) or not shown (empty list, line 244) does nothing; otherwise the page error clears and every entry is finished against the page's current target |
| `PdfCompressor.DoneOutcome` | src/pages/converters/PdfCompressor.tsx:90-103 | an entry whose target is below a tenth of its original ends in error with the message and nothing else changed; any other entry completes at 100 with size round(original * ratio) |
| `PdfCompressor.CompressOutcome` | src/pages/converters/PdfCompressor.tsx:74-138 | after a run, infeasible entries are in error at progress 0, and feasible ones are completed at 100 with the final size; names, sizes and snapshotted settings are untouched |
| `PdfCompressor.DuringFeasible` | src/pages/converters/PdfCompressor.tsx:109-122 | at the j-th progress update, a feasible entry shows progress 10(j-1) and the interpolated size, and keeps its status |
| `PdfCompressor.ProgressMonotone` | src/pages/converters/PdfCompressor.tsx:109-133 | an entry's progress never decreases during its run |
| `PdfCompressor.SizeAtInterpolates` | src/pages/converters/PdfCompressor.tsx:117 | the size formula equals round(original - progress/100 * (original - target)) |
| `PdfCompressor.SizeAtStart` | src/pages/converters/PdfCompressor.tsx:117 | at progress 0 the size shown is the original |
| `PdfCompressor.SizeAtNonIncreasing` | src/pages/converters/PdfCompressor.tsx:117 | with a target at most the original, the size shown never grows as progress advances |
| `PdfCompressor.FinalSizeIsTarget` | src/pages/converters/PdfCompressor.tsx:106-132 | the completed size is the target rounded, and exactly the target for a whole number of bytes |
| `PdfCompressor.EmptyFileCompletesWithNaN` | src/pages/converters/PdfCompressor.tsx:90-132 | a 0-byte file passes the feasibility test but completes with a size that is `NaN` (its ratio divides by zero) |
| `PdfCompressor.ReductionAtMost90` | src/pages/converters/PdfCompressor.tsx:153-155 | a compressed size of at least a tenth of the original shows a reduction of at most 90 percent |
| `PdfCompressor.Reduction` | src/pages/converters/PdfCompressor.tsx:153-155 | for a non-empty file and a finite size, the percentage is (original - compressed) / original * 100; for a 0-byte file it is never a finite number; a `NaN` size gives `NaN` |
| `PdfCompressor.CompletedReduction` | src/pages/converters/PdfCompressor.tsx:90-155 | a feasible entry with a whole-number target completes at exactly the target and shows at most a 90 percent reduction |
| `PdfEditor.OnDrop` | src/pages/converters/PdfEditor.tsx:47-59 | the dropped files replace the page list: page k has id k, the k-th image, rotation 0, zoom 100, filter none, brightness and contrast 100; the selection is left as it was |
| `PdfEditor.SelectPage` | src/pages/converters/PdfEditor.tsx:273 | a thumbnail click selects that page's id and leaves the pages alone |
| `PdfEditor.EditSelected` | src/pages/converters/PdfEditor.tsx:68-111 | with nothing selected nothing changes; otherwise only the pages whose id is selected are edited |
| `PdfEditor.Rotate` | src/pages/converters/PdfEditor.tsx:68-75 | only the selected page changes, by exactly -90 (left) or +90 (right) degrees |
| `PdfEditor.ClampZoom` | src/pages/converters/PdfEditor.tsx:81 | the result lies in 50..200; it is the input when that is in range, and otherwise the nearer bound |
| `PdfEditor.Zoom` | src/pages/converters/PdfEditor.tsx:77-84 | only the selected page's zoom changes; it becomes old + step when that is in 50..200, 200 when the sum is above, and 50 when it is below |
| `PdfEditor.SetFilter` | src/pages/converters/PdfEditor.tsx:86-93 | only the selected page's filter changes, to the chosen one |
| `PdfEditor.SetBrightness` | src/pages/converters/PdfEditor.tsx:95-102 | only the selected page's brightness changes, to the slider value |
| `PdfEditor.SetContrast` | src/pages/converters/PdfEditor.tsx:104-111 | only the selected page's contrast changes, to the slider value |
| `PdfEditor.RotateLeftThenRight` | src/pages/converters/PdfEditor.tsx:68-75 | rotating left and then right restores the state |
| `PdfEditor.RotateKeepsValid` | src/pages/converters/PdfEditor.tsx:68-75 | rotation keeps every page at a multiple of 90 degrees, with ids equal to indices |
| `PdfEditor.ZoomKeepsValid` | src/pages/converters/PdfEditor.tsx:77-84 | zoom by any step keeps every page valid |
| `PdfEditor.SetFilterKeepsValid` | src/pages/converters/PdfEditor.tsx:86-93 | choosing a menu filter keeps every page valid |
| `PdfEditor.SetBrightnessKeepsValid` | src/pages/converters/PdfEditor.tsx:95-102 | a brightness from the 0..200 slider keeps every page valid |
| `PdfEditor.SetContrastKeepsValid` | src/pages/converters/PdfEditor.tsx:104-111 | a contrast from the 0..200 slider keeps every page valid |
| `PdfEditor.SelectedIdIsIndex` | src/pages/converters/PdfEditor.tsx:150-161 | because ids equal indices, the page shown as `pages[selected]` is the one the handlers edit by id |
| `PdfEditor.FilterPanel` | src/pages/converters/PdfEditor.tsx:145-220 | with no pages the panel is not rendered at all; otherwise it shows the defaults exactly when nothing is selected, the selected page's filter, brightness and contrast when the selection names a page, and its read fails exactly when the selection names no page |
| `PdfEditor.EmptyDropHidesPanel` | src/pages/converters/PdfEditor.tsx:47-59 | a drop in which no file is accepted empties the list, which hides the panel rather than making it fail |
| `PdfEditor.StaleSelectionCrashesPanel` | src/pages/converters/PdfEditor.tsx:47-59 | drop five files, select page 4, drop two files: the selection survives and the filter panel's read fails |
| `PdfEditor.OnDropKeepingSelectionValid` | src/pages/converters/PdfEditor.tsx:47-59 | the corrected drop builds the same pages and keeps the selection in range, keeping it unchanged when it still names a page |
| `PdfEditor.CorrectedDropNeverCrashesPanel` | src/pages/converters/PdfEditor.tsx:220 | with the corrected drop, and with thumbnail clicks on listed pages, the filter panel's read never fails |
| `PdfEditor.EditsKeepSelectionInRange` | src/pages/converters/PdfEditor.tsx:68-111 | no edit handler moves an in-range selection out of range |
| `WordToPdf.OnDrop` | src/pages/converters/WordToPdf.tsx:34-41 | the old list is a prefix, followed by one pending entry at 0% per document name |
| `WordToPdf.RemoveFile` | src/pages/converters/WordToPdf.tsx:76-78 | exactly the entry at the index is cut out, order kept |
| `WordToPdf.ClearAll` | src/pages/converters/WordToPdf.tsx:169-175 | while converting the click does nothing; otherwise the list empties |
| `WordToPdf.Snapshot` | src/pages/converters/WordToPdf.tsx:52-74 | during the run, entries before the current one are done, later ones untouched, and the current one is part-way |
| `WordToPdf.Convert` | src/pages/converters/WordToPdf.tsx:52-74 | a disabled button (converting, or empty list) does nothing; otherwise every entry is finished and the page ends idle |
| `WordToPdf.DuringValues` | src/pages/converters/WordToPdf.tsx:55-70 | j updates in, an entry is converting at 0, 0, 10, ..., 100 percent, then completed at 100 |
| `WordToPdf.DoneOutcome` | src/pages/converters/WordToPdf.tsx:55-70 | every entry ends completed at 100 under its own name |
| `WordToPdf.ProgressMonotone` | src/pages/converters/WordToPdf.tsx:60-65 | progress never decreases during an entry's run |
| `WordToPdf.SnapshotStep` | src/pages/converters/WordToPdf.tsx:55-70 | each step is one update at the running index |
| `WordToPdf.SnapshotHandOver` | src/pages/converters/WordToPdf.tsx:54 | one entry's last step is the next entry's first: no gap or overlap between entries |
| `WordToPdf.SnapshotEnd` | src/pages/converters/WordToPdf.tsx:54-73 | the last step of the run is the finished list |
| `WordToPdf.ConvertOutcome` | src/pages/converters/WordToPdf.tsx:52-74 | after a run every entry is completed at 100 with its name, and the page is idle |
| `WordToPdf.NeverError` | src/pages/converters/WordToPdf.tsx:23-27 | nothing on the page ever marks an entry as failed, at any point of a run |
| `JobList.OnDrop` | src/pages/converters/PhotoCompressor.tsx:49-61 | the old list is a prefix, followed by one pending entry at 0% per dropped file, carrying the page's settings at that moment |
| `JobList.RemoveFile` | src/pages/converters/PhotoCompressor.tsx:70-72 | exactly the entry at the index is cut out, order kept |
| `JobList.SetSettings` | src/pages/converters/PhotoCompressor.tsx:44-61 | a settings control changes the page's settings only; entries keep the settings they were dropped with |
| `JobList.Run` | src/pages/converters/PhotoCompressor.tsx:74-98 | a button that is disabled (some entry processing) or not shown (empty list, line 205) does nothing; otherwise every entry ends completed at 100 with its name, size and settings unchanged, and the page's settings stay |
| `JobList.StepEntry` | src/pages/converters/PhotoCompressor.tsx:74-98 | k steps into a run, entries before k are completed at 100 and the rest are processing at 0; names, sizes and settings never change |
| `JobList.StepNext` | src/pages/converters/PhotoCompressor.tsx:85-96 | each step completes exactly the next entry |
| `JobList.ButtonDuringRun` | src/pages/converters/PhotoCompressor.tsx:215 | during a run on a non-empty list, the run button is enabled if and only if the run has completed every entry |
| `JobList.RunOutcome` | src/pages/converters/ImageToPdf.tsx:70-94 | after a run the button is enabled again and every entry is completed (the image-to-PDF run is the same code as the photo compressor's) |
| `PhotoCompressor.ControlsKeepValid` | src/pages/converters/PhotoCompressor.tsx:44-177 | from the defaults (500 KB, 300 DPI, original, jpeg), with control values in range (DPI 72..600, resolutions and formats from the menus), the page and every entry only ever hold valid settings |
| `PhotoCompressor.SetTargetSize` | src/pages/converters/PhotoCompressor.tsx:126 | the size field stores any number it parses (its min and max are not enforced) and changes nothing else |
| `PhotoCompressor.SetDpi` | src/pages/converters/PhotoCompressor.tsx:137 | the DPI slider stores its value and changes nothing else |
| `PhotoCompressor.SetResolution` | src/pages/converters/PhotoCompressor.tsx:154 | the resolution menu stores its choice and changes nothing else |
| `PhotoCompressor.SetFormat` | src/pages/converters/PhotoCompressor.tsx:170 | the format menu stores its choice and changes nothing else |
| `PhotoCompressor.DropRecordsSettings` | src/pages/converters/PhotoCompressor.tsx:49-61 | a drop after a settings change records the new settings on the new entries and leaves earlier entries as they were |
| `ImageToPdf.ControlsKeepValid` | src/pages/converters/ImageToPdf.tsx:44-144 | from the defaults (a4, portrait), every page size the page or an entry holds is one the menu offers |
| `ImageToPdf.SetPageSize` | src/pages/converters/ImageToPdf.tsx:125 | the page-size menu stores its choice and changes nothing else |
| `ImageToPdf.SetOrientation` | src/pages/converters/ImageToPdf.tsx:140 | the orientation menu stores its choice and changes nothing else |
| `KeyedList.OnDrop` | src/components/ImageSizeChanger.tsx:40-47 | the old list is a prefix, followed by one pending entry per image, each with a new identity |
| `KeyedList.OnDropKeepsKeysFresh` | src/components/ImageSizeChanger.tsx:40-47 | identities stay distinct across drops |
| `KeyedList.Finish` | src/components/ImageSizeChanger.tsx:72-84 | exactly the entries with the given identity succeed with the result; the page is idle again |
| `KeyedList.Process` | src/components/ImageSizeChanger.tsx:72-217 | without a live, enabled button for the identity the click does nothing; otherwise the page ends idle, the entries with that identity succeed with the result, and all others are unchanged |
| `KeyedList.ProcessDone` | src/components/ImageSizeChanger.tsx:72-217 | the button is live exactly when the entry is pending and no job runs; a click on it makes that entry succeed with the result and lose its button; every other entry is unchanged, and identities stay distinct |
| `KeyedList.Remove` | src/components/ImageSizeChanger.tsx:86-91 | the entry with the identity is gone, every other entry is still listed, and identities stay distinct |
| `KeyedList.RemoveExactlyOne` | src/components/ImageSizeChanger.tsx:86-91 | with distinct identities, removal cuts out exactly that entry and keeps the others in order |
| `ImageSizeChanger.ChangeWidth` | src/components/ImageSizeChanger.tsx:56-62 | the width becomes the new value; with the lock on, the height becomes round(new width * old height / old width), and with the lock off it is unchanged |
| `ImageSizeChanger.ChangeHeight` | src/components/ImageSizeChanger.tsx:64-70 | symmetric to the width field |
| `ImageSizeChanger.RescaleBound` | src/components/ImageSizeChanger.tsx:60 | for a positive base, round(n * other / base) is within half a pixel of the exact proportion |
| `ImageSizeChanger.AspectKept` | src/components/ImageSizeChanger.tsx:56-70 | with the lock on and positive whole sides, either field keeps the proportion to within half a pixel |
| `ImageSizeChanger.NaNSpreads` | src/components/ImageSizeChanger.tsx:57-68 | with the lock on, a field that is not a number makes the other side `NaN` too |
| `ImageSizeChanger.ZeroWidthBreaksHeight` | src/components/ImageSizeChanger.tsx:60 | with the lock on and a zero width, the next width change gives an infinite or `NaN` height |
| `ImageSizeChanger.ResizeRecordsDims` | src/components/ImageSizeChanger.tsx:72-217 | a click on a pending entry while idle records the dimensions shown at the click, whatever the fields say afterwards; any other click records nothing; either way the entry has no live button afterwards |
| `ImageSizeChanger.Resize` | src/components/ImageSizeChanger.tsx:72-84 | the keyed job records the width and height as shown; a click without a live button changes nothing; the fields and lock stay |
| `ImageSizeChanger.OnDrop` | src/components/ImageSizeChanger.tsx:40-47 | dropped images join the list as new pending entries; fields and lock stay |
| `ImageSizeChanger.Remove` | src/components/ImageSizeChanger.tsx:86-91 | removal by identity; fields and lock stay |
| `ImageSizeChanger.SetKeepAspect` | src/components/ImageSizeChanger.tsx:160 | the switch sets the lock and leaves the fields and the list as they are |
| `BackgroundChanger.ChangeBackground` | src/components/BackgroundChanger.tsx:57-69 | the keyed job records the colour field's current text; a click without a live button changes nothing; colour and kind stay |
| `BackgroundChanger.KindIgnored` | src/components/BackgroundChanger.tsx:39-69 | the background kind (solid or transparent) plays no part in what a job records |
| `BackgroundChanger.ChangeRecordsColor` | src/components/BackgroundChanger.tsx:57-209 | a click on a pending entry while idle makes it succeed with the colour; any other click changes nothing; either way the entry has no live button afterwards and the others are untouched |
| `BackgroundChanger.OnDrop` | src/components/BackgroundChanger.tsx:41-48 | dropped images join the list as new pending entries; colour and kind stay |
| `BackgroundChanger.Remove` | src/components/BackgroundChanger.tsx:71-76 | removal by identity; colour and kind stay |
| `BackgroundChanger.SetColor` | src/components/BackgroundChanger.tsx:142 | the colour field stores its text and changes nothing else |
| `BackgroundChanger.SetKind` | src/components/BackgroundChanger.tsx:128 | the kind menu stores its choice and changes nothing else |
| `AppTheme.DecodeDarkMode` | src/App.tsx:20-23 | the startup flag is true if and only if the stored value is exactly `true` |
| `AppTheme.EncodeDarkMode` | src/App.tsx:26 | the stored text is `true` or `false` |
| `AppTheme.Init` | src/App.tsx:20-27 | the flag is on exactly when `true` is stored; the mount effect then stores the flag's text, so afterwards the key holds `true` or `false`, and no other key changes |
| `AppTheme.RestartIsStable` | src/App.tsx:20-27 | a second startup reads the same flag and leaves every stored value as the first left it |
| `AppTheme.DarkModeRoundTrip` | src/App.tsx:20-27 | decoding what the effect stores gives back the flag |
| `AppTheme.SetDarkMode` | src/App.tsx:25-27 | after a change, the store holds the flag's text under `darkMode` and no other key changes |
| `AppTheme.ReloadKeepsDarkMode` | src/App.tsx:20-27 | a reload after any change starts with the flag that was set |
| `AppTheme.PaletteFor` | src/App.tsx:31-40 | the palette is dark if and only if the flag is on; the backgrounds are #121212/#1e1e1e when dark and #f5f5f5/#ffffff when light |
| `ColorMode.InitialMode` | src/hooks/useColorMode.ts:6-9 | the start mode is the stored text when non-empty, else `light` |
| `ColorMode.Toggle` | src/hooks/useColorMode.ts:16-18 | the result is `dark` exactly for `light`, and `light` for everything else |
| `ColorMode.ToggleTwice` | src/hooks/useColorMode.ts:16-18 | toggling twice is the identity on `light` and `dark`; any other text becomes `dark` |
| `ColorMode.Sync` | src/hooks/useColorMode.ts:11-14 | after each change the store holds the mode under `colorMode` and the body has `dark-mode` exactly when the mode is `dark` |
| `ColorMode.Mount` | src/hooks/useColorMode.ts:6-14 | the mode is the start mode from storage, and the effect stores it back |
| `ColorMode.ToggleColorMode` | src/hooks/useColorMode.ts:11-18 | the mode toggles, is stored, and the body is dark exactly when the mode toggled from `light` |
| `ColorMode.RemountKeepsMode` | src/hooks/useColorMode.ts:6-14 | remounting reads back the mode the effect stored |
| `ColorMode.MountedMode` | src/hooks/useColorMode.ts:6-9 | a mounted mode is `light`, `dark`, or whatever non-empty text was stored |
| `SettingsPage.StartupLanguage` | src/i18n.ts:994 | the startup language is the stored non-empty code, else `en` |
| `SettingsPage.ChangeLanguage` | src/pages/Settings.tsx:44-48 | the chosen code becomes active and is stored under `language`; nothing else changes |
| `SettingsPage.LanguageRoundTrip` | src/pages/Settings.tsx:27-48 | a language picked from the menu is the one the next startup activates, and it has a translation table |
| `SettingsPage.MenuCodesHaveResources` | src/i18n.ts:147-988 | every menu code and the default `en` have a resource table |
| `SettingsPage.Init` | src/pages/Settings.tsx:38-42 | the page opens with sync off, offline off, notifications on and 2.5 GB used |
| `SettingsPage.DarkModeSwitch` | src/pages/Settings.tsx:50-52 | the switch hands the negated flag to the shell, which stores it, so a reload shows the flipped value |
| `SettingsPage.ToggleCloudSync` | src/pages/Settings.tsx:54-57 | flips cloud sync and nothing else |
| `SettingsPage.ToggleOfflineMode` | src/pages/Settings.tsx:59-62 | flips offline mode and nothing else |
| `SettingsPage.ToggleNotifications` | src/pages/Settings.tsx:64-67 | flips notifications and nothing else |
| `SettingsPage.DarkModeToggle` | src/pages/Settings.tsx:50-52 | the handler hands the shell the opposite of the current flag |
| `SettingsPage.TogglesInvolutive` | src/pages/Settings.tsx:54-67 | each of the three switches, flipped twice, restores the page |
| `SettingsPage.ClearStorage` | src/pages/Settings.tsx:69-72 | used storage becomes 0 and nothing else changes (the 10 GB capacity is constant) |
| `SettingsPage.UsagePercent` | src/pages/Settings.tsx:149 | used/total*100 lies in [0, 100] when 0 <= used <= total; it is 100 exactly at full use and 0 exactly at none |
| `SettingsPage.UsagePercentFacts` | src/pages/Settings.tsx:41-149 | the gauge grows with use, opens at 25 percent, and shows 0 after clearing |

## Left out

- I/O: `FileReader`, object URLs, image loading, `fetch`, download
  anchors, the clipboard and the canvas's PNG encoding are left out.
  `RemoveWatermark` takes the decoded image and a flag for whether a 2-D
  context exists. `FinishRemoval` takes the result (or its absence).
- Timers and `await` are left out. Runs are sequences of updates with
  nothing interleaved. What a click during a run would do is not
  modelled: removing or dropping files mid-run, where the loops keep
  indexing the list they started with.
- React's stale closures are left out. Every handler reads the state it
  is given.
- Floating point is left out. Finite numbers are exact reals, with no
  signed zero and no rounding error. `JsNumber` models only the `NaN`
  and infinity cases that the pages can reach.
- `parseInt` and `Number` on field text are left out. Handlers take the
  parsed `Num` directly.
- Display formatting is left out: `formatFileSize`, every `toFixed`, and
  the translation tables. Only the set of language codes of `i18n.ts` is
  used.
- Pages outside these components are left out, and so are PdfEditor's
  save handler, its crop and resize buttons, and the copy-to-clipboard
  buttons. None of them change the modelled state.
- `PdfCompressor.SizeAtNonIncreasing`: stated only for a target at most
  the original. Above it, the size shown grows instead.
- `ImageSizeChanger.AspectKept`: the half-pixel bound is stated only for
  positive whole sides. Zero, `NaN` and infinite sides are covered
  separately by `NaNSpreads` and `ZeroWidthBreaksHeight`.
- `KeyedList.Remove`: its contract states membership, not order. Order
  is stated by `RemoveExactlyOne`, under distinct identities.
- `SettingsPage.UsagePercent`: stated over exact reals rather than
  floating point.

## Findings

| source | as written | input that shows it | evidently intended | confidence | as-written member | corrected member |
|---|---|---|---|---|---|---|
| src/pages/converters/PdfEditor.tsx:47-59 | `onDrop` replaces the page list but keeps `selectedPage`. The open filter panel then reads `pages[selectedPage].filter` without a guard (line 220), unlike the main view (line 150). | drop five files, click page 5 (id 4), open the filters, drop two files: `pages[4]` is `undefined` and rendering throws | a drop clears, or keeps in range, a selection the new list has no page for | medium, not executed | `PdfEditor.StaleSelectionCrashesPanel` | `PdfEditor.OnDropKeepingSelectionValid` |
| src/pages/converters/WatermarkRemover.tsx:54 | the slider value goes straight into `r > threshold && g > threshold && b > threshold`, so a higher value is a stricter test; the help text at line 174 says higher values remove more light-coloured areas, and line 161 shows the value as a percentage | a light grey pixel (80, 80, 80): whitened with the slider at 50, left alone at 100 | the slider is a percentage that widens the test as it grows, for instance a cutoff of `255 - slider * 255 / 100` | medium, not executed | `WatermarkRemover.HigherSliderWhitensLess` | `WatermarkRemover.SliderCutoff` |
