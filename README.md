# Chartographer canvas store and raster algebra, in Dafny

Chartographer is a server that stores raster canvases. Each canvas that the service creates is a 24-bit RGB
image kept as one BMP file `folder/id.bmp`, addressed by a generated id. Clients create blank canvases, draw
images into them at an offset, read rectangular regions out of them and delete them. This project
models the two components behind those operations and proves properties of them:

- `ImageRepo`, the keyed store. It is the class `Repo.ImageRepo`. Its field `images` is a map from
  id to the raster that id's file decodes to. An id with no file is absent from the map. Save,
  update and delete reassign the map. Read observes it.
- `ImageService`, the raster algebra. It is the class `Service.ImageService`. Drawing a source into a
  canvas (`insertImage`) and reading a region (`getImagePart`) are explicit row-by-row copies from a
  raster value into an `array2` pixel buffer (`Service.DrawInto`, `Service.CopyPart`). Each copy is proved to compute a
  pure function on raster values (`Compositing.Inserted`, `Compositing.Part`). The algebraic
  properties of drawing and region reading are lemmas about those functions.

Files:
- `images.dfy` defines the raster value, the typed failures and the conversion between a raster and a pixel buffer.
- `compositing.dfy` holds the specification functions and the algebra lemmas.
- `repo.dfy` holds the store.
- `service.dfy` holds the service.

Exceptions become constructors of `Images.Error`. `ImageNotFound`, `IllegalImageSize` and
`OffsetOutOfRange` carry the values their exception's message prints. `NoAppropriateWriter` carries
only the format name; the image type that `NoAppropriateWriterException` also prints is dropped
(see "## Left out"). A void operation returns `Outcome` (`Pass` or `Fail(error)`). An operation with
a result returns `Result`. The bounds that the request layer enforces become `requires` clauses:
width and height at least 1, offsets at least 0, and the limits 20000 / 50000 / 5000 / 5000.

`images.dfy` defines raster equality as `SameImage`: same width, same height and the same sample
everywhere. This is how the tests compare images. Where the pixel layout also agrees, the lemmas
state plain `==`.

## Model

| member | source | states |
|---|---|---|
| `Images.Blank` | src/main/java/ru/kontur/intern/service/ImageService.java:24-25 | a new canvas is exactly width x height, every sample is black (0,0,0), and the codec can write it |
| `Compositing.Inserted` | src/main/java/ru/kontur/intern/service/ImageService.java:29-32 | drawing yields a well-formed raster that keeps the target's width, height and pixel layout, however far the source overruns the target's edges |
| `Compositing.InsertedAt` | src/main/java/ru/kontur/intern/service/ImageService.java:48 | pixel (i, j) of a drawn target is source pixel (i-x, j-y) inside [x, x+w) x [y, y+h), and the old target pixel elsewhere |
| `Compositing.Part` | src/main/java/ru/kontur/intern/service/ImageService.java:73-78 | a region is always exactly the requested width x height, even when that is larger than the canvas, and it is a writable RGB image |
| `Compositing.PartAt` | src/main/java/ru/kontur/intern/service/ImageService.java:75-78 | region pixel (i, j) is canvas pixel (x+i, y+j) when that lies inside the canvas, and black otherwise |
| `Compositing.SameImageByPixels` | src/test/java/ru/kontur/intern/unit/AbstractTest.java:18-38 | two rasters with equal sizes and equal samples at every position are the same image |
| `Compositing.FullPartIsSameImage` | src/test/java/ru/kontur/intern/unit/ImageServiceTest.java:34-41 | reading the whole canvas from (0, 0) gives back the stored image |
| `Compositing.PartOfBlank` | src/main/java/ru/kontur/intern/service/ImageService.java:24-27 | any region of a freshly created canvas, read from a corner inside it, is a blank raster of the requested size |
| `Compositing.PartAfterInsert` | src/main/java/ru/kontur/intern/service/ImageService.java:47-49 | a source drawn wholly inside a canvas is read back unchanged from the same corner |
| `Compositing.InsertPartIsIdentity` | src/main/java/ru/kontur/intern/service/ImageService.java:48 | drawing back a region just read from the same corner leaves the canvas as it was; the region's black padding is clipped away |
| `Compositing.InsertIdempotent` | src/main/java/ru/kontur/intern/service/ImageService.java:48 | drawing the same source at the same place twice equals drawing it once |
| `Compositing.DisjointInsertsCommute` | src/main/java/ru/kontur/intern/service/ImageService.java:47-49 | two draws into non-overlapping rectangles made one after the other give the same canvas in either sequential order, and after both each source is present where it was drawn |
| `Compositing.InsertAtOrigin` | src/test/java/ru/kontur/intern/unit/ImageServiceTest.java:80-91 | a source no larger than the canvas drawn at (0, 0) holds the source's samples in its top-left block of the source's size (and that block reads back as the source), keeps the canvas's samples everywhere else, and replaces the whole canvas when the sizes are equal |
| `Images.Thaw` | src/main/java/ru/kontur/intern/repo/ImageRepo.java:56 | decoding a stored raster yields a fresh pixel buffer, shared with nothing else, of the raster's width and height holding its samples |
| `Images.FreezeMatches` | src/main/java/ru/kontur/intern/service/ImageService.java:49 | a pixel buffer with the dimensions and samples of a raster holds exactly that raster, so the buffer written back is the drawn raster |
| `Repo.ImagePathById` | src/main/java/ru/kontur/intern/repo/ImageRepo.java:92-94 | the path of an id is the folder, then `/`, then the id, then `.bmp`, each at its own position |
| `Repo.ImagePathInjective` | src/main/java/ru/kontur/intern/repo/ImageRepo.java:92-94 | the path `folder/id.bmp` is a function of the id alone, and distinct ids get distinct paths (both directions) |
| `Repo.ImageRepo.constructor` | src/main/java/ru/kontur/intern/repo/ImageRepo.java:22-35 | a store over a fixed folder starts with the files that folder already holds, any well-formed raster, including one whose layout has alpha |
| `Repo.ImageRepo.SaveImage` | src/main/java/ru/kontur/intern/repo/ImageRepo.java:37-49 | a writable raster is stored under an id that named no file before, and no other entry changes; an unwritable one fails with NoAppropriateWriter("bmp") and the store is unchanged |
| `Repo.ImageRepo.SaveImageAsWritten` | src/main/java/ru/kontur/intern/repo/ImageRepo.java:37-49 | as the code stands: a fresh id is always returned, but a raster the codec refuses leaves the store unchanged |
| `Repo.ImageRepo.ReadImage` | src/main/java/ru/kontur/intern/repo/ImageRepo.java:51-62 | reading a stored id returns its raster; reading an id with no file fails with ImageNotFound carrying `folder/id.bmp`; the store is not modified |
| `Repo.ImageRepo.UpdateImage` | src/main/java/ru/kontur/intern/repo/ImageRepo.java:64-75 | a writable raster replaces the whole entry for the id (creating it if absent), and no other entry changes; an unwritable one fails with NoAppropriateWriter("bmp") and the old content is kept |
| `Repo.ImageRepo.UpdateImageAsWritten` | src/main/java/ru/kontur/intern/repo/ImageRepo.java:64-75 | as the code stands: nothing is reported, and a raster the codec refuses leaves the old content in place |
| `Repo.ImageRepo.DeleteImage` | src/main/java/ru/kontur/intern/repo/ImageRepo.java:77-90 | the id's entry is removed and no other entry changes; deleting an absent id leaves the store unchanged, so a second delete is a no-op |
| `Repo.SaveReadUpdateDelete` | src/test/java/ru/kontur/intern/unit/ImageRepoTest.java:35-49 | on any store: read after save returns the saved raster; read after update returns the new raster; after two deletes the read fails with not-found; all other files are untouched |
| `Repo.SwallowedSaveLosesImage` | src/main/java/ru/kontur/intern/repo/ImageRepo.java:41-45 | saving a raster with alpha through the code as written returns an id whose read fails with not-found |
| `Repo.RefusedSaveReportsFailure` | src/test/java/ru/kontur/intern/unit/ImageRepoTest.java:58-62 | the corrected save of a raster with alpha fails with NoAppropriateWriter("bmp") |
| `Repo.SwallowedUpdateKeepsOldImage` | src/main/java/ru/kontur/intern/repo/ImageRepo.java:68-72 | updating with a raster with alpha through the code as written reports nothing, and the old canvas is still read back |
| `Repo.RefusedUpdateReportsFailure` | src/main/java/ru/kontur/intern/repo/ImageRepo.java:64-75 | the corrected update with a raster with alpha fails with NoAppropriateWriter("bmp") |
| `Service.DrawInto` | src/main/java/ru/kontur/intern/service/ImageService.java:48 | the buffer copy writes each source sample to (x+i, y+j) when that is inside the target; every other target pixel is unchanged |
| `Service.CopyPart` | src/main/java/ru/kontur/intern/service/ImageService.java:73-78 | the black buffer filled with the min(width, W-x) x min(height, H-y) overlap is exactly `Part` |
| `Service.ImageService.CreateImage` | src/main/java/ru/kontur/intern/service/ImageService.java:24-27 | stores a blank width x height canvas under a new id, returns that id, and changes no other entry |
| `Service.ImageService.InsertImage` | src/main/java/ru/kontur/intern/service/ImageService.java:43-51 | a size mismatch fails with IllegalImageSize(source width, width, source height, height) before the target is read; otherwise an absent target fails with ImageNotFound; on either failure the store is unchanged; for a target without alpha exactly the target's entry becomes `Inserted(target, source, x, y)`; for a target with alpha the write-back fails with NoAppropriateWriter("bmp") and the store is unchanged |
| `Service.RefusedInsertIntoAlphaCanvas` | src/main/java/ru/kontur/intern/service/ImageService.java:47-49 | drawing into a stored canvas whose layout has alpha fails with NoAppropriateWriter("bmp"), and the canvas still reads back as before |
| `Service.InterleavedInsertsLoseUpdate` | src/main/java/ru/kontur/intern/service/ImageService.java:47-49 | two inserts of disjoint dots whose reads both precede both write-backs, as the separate read and write locks allow, leave only the second dot on the canvas |
| `Service.SequentialInsertsKeepBoth` | src/main/java/ru/kontur/intern/service/ImageService.java:43-51 | the same two inserts run one after the other through `InsertImage` leave both dots on the canvas |
| `Service.ImageService.GetImagePart` | src/main/java/ru/kontur/intern/service/ImageService.java:67-80 | an absent canvas fails with ImageNotFound before any offset check; otherwise x >= W or y >= H fails with OffsetOutOfRange(W, x, H, y); otherwise the result is `Part(canvas, width, height, x, y)`; the store is never modified |
| `Service.ImageService.DeleteImage` | src/main/java/ru/kontur/intern/service/ImageService.java:87-89 | the store loses the id's entry and nothing else |

## Left out

- The per-id lock stripes (`Striped.lazyWeakReadWriteLock(200)` and the lock/unlock pairs) are not modelled. Each store method takes one lock around one file operation, so the model keeps only the sequential map semantics. Concurrency, fairness and lock reclamation are not captured.
- `Service.ImageService.InsertImage` is modelled as one sequential step. In the source, its read (`ImageService.java:47`, under the read lock at `ImageRepo.java:53-60`) and its write-back (`ImageService.java:49`, under the write lock at `ImageRepo.java:66-73`) lock separately. Two concurrent inserts on one id can both read the old canvas, and the later write-back then erases the earlier source. The model composes inserts sequentially; the interleaving is exhibited only as the third row of "## Findings".
- `ImageIO` encoding and decoding, BMP bytes and file-system calls are not modelled. The store is a map from id to decoded raster. The codec appears only as the predicate `Encodable`, which is false for a pixel layout with an alpha channel.
- Files that exist but do not decode are not modelled, and neither are I/O failures during a write. `ImageIO.read` returns null for a file no reader recognises; a file a reader recognises but cannot decode (a truncated BMP, say) makes it throw, and `readImage` then reports ImageNotFound (`ImageRepo.java:57-58`). An exception thrown during a write is caught and logged. The model assumes every stored file decodes to a valid raster.
- `Repo.ImageRepo.ReadImage`: `readImage` (`ImageRepo.java:56-58`) turns every exception, including a permission or I/O error on a file that exists, into ImageNotFound. The model has no such errors, so an id with a file is always read.
- `Repo.ImageRepo.DeleteImage`: `deleteImage` (`ImageRepo.java:85-87`) logs and swallows an exception thrown by `Files.delete`, leaving the file in place. The model has no such errors, so the entry is always removed. Nor does it model `Path.of` at `ImageRepo.java:78`, outside the try block, which throws `InvalidPathException` for an id that is not a legal path (one holding NUL, for instance).
- `Images.NoAppropriateWriter` carries the format name only. The image type that `NoAppropriateWriterException.java:6-8` also puts in its message is not modelled, because the model has no image types beyond the alpha flag.
- The directory bootstrap `setUp` is left out. Instead, the constructor takes the folder's existing contents.
- `UUID.randomUUID()` is replaced by a nondeterministic choice of an id that names no file yet. UUID collisions are not modelled.
- `Compositing.Inserted` assumes the target holds 24-bit samples, as every canvas `createImage` makes does. A target file placed in the folder from outside may decode to a palette (1-, 4- or 8-bit) or 16-bit image, onto which `drawImage` stores the nearest palette colour or drops low bits; that quantisation is not captured, and for such a target `InsertImage`'s promise that the entry becomes `Inserted(...)` is stronger than the source.
- `Graphics.drawImage` alpha compositing is not modelled. Drawing copies samples, so a source with an alpha channel is drawn as if it were opaque.
- Java's 32-bit `int` is not modelled. Offsets and sizes are unbounded naturals, so the overflow of `x + i` for offsets near 2^31 is not captured.
- `ImageController` (routing, multipart decoding, annotation validation, mapping exceptions to HTTP statuses), `ImageRepoConfig`, `Application` and the exceptions' message formatting are not part of this model. `ImageRepoConfig.java:27` calls a constructor `ImageRepo(storagePath, stripedSize)` that `ImageRepo.java` does not have. The model follows `ImageRepo.java`, whose folder is a fixed field.
- `Service.ImageService.InsertImage` writes back through the corrected `UpdateImage`. Drawing keeps the target's layout, so a target file whose layout has alpha (placed in the folder from outside) cannot be written back. The model reports NoAppropriateWriter("bmp") for it. The code as written swallows that failure in `updateImage` (second row of "## Findings"): `insertImage` returns normally and the file keeps its old content. In both versions the store is unchanged.
- `Service.ImageService.CreateImage` stores through the corrected `SaveImage`. A blank canvas is always `Encodable`, so on this path `SaveImage` and `SaveImageAsWritten` store the same raster under a fresh id.

## Findings

| source | as written | input that shows it | evidently intended | confidence | as-written member | corrected member |
|---|---|---|---|---|---|---|
| src/main/java/ru/kontur/intern/repo/ImageRepo.java:41-45 | when the BMP codec cannot write the raster, `saveImage` neither throws nor returns an error. It returns a fresh id, and no file is written under it | a raster with an alpha channel; reading the returned id then fails with ImageNotFound | fail with `NoAppropriateWriterException` and store nothing (as `ImageRepoTest.java:58-62` expects) | not executed | `Repo.ImageRepo.SaveImageAsWritten`, `Repo.SwallowedSaveLosesImage` | `Repo.ImageRepo.SaveImage`, `Repo.RefusedSaveReportsFailure` |
| src/main/java/ru/kontur/intern/repo/ImageRepo.java:68-72 | when the codec cannot write the raster, `updateImage` reports nothing and the old file stays | a canvas updated with a raster with an alpha channel still reads back as its old content | fail with `NoAppropriateWriterException` and keep the old content | not executed | `Repo.ImageRepo.UpdateImageAsWritten`, `Repo.SwallowedUpdateKeepsOldImage` | `Repo.ImageRepo.UpdateImage`, `Repo.RefusedUpdateReportsFailure` |
| src/main/java/ru/kontur/intern/service/ImageService.java:47-49 | `insertImage` reads the canvas and writes it back under two separate locks (`ImageRepo.java:53-60`, `ImageRepo.java:66-73`), so the read-draw-write is not atomic | two inserts into disjoint pixels of one 2 x 1 canvas, both reading before either writes back; the first dot is lost | an insert is atomic per canvas, so disjoint inserts both survive whatever their timing | not executed | `Service.InterleavedInsertsLoseUpdate` | `Service.ImageService.InsertImage`, `Compositing.DisjointInsertsCommute`, `Service.SequentialInsertsKeepBoth` |
