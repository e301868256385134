# FotoSort-rs viewer core in Dafny

FotoSort-rs is a small image viewer. It is started with a list of image files. It opens a window, then decodes the files it can, and shows one image at a time. Left and Right arrow presses step backwards and forwards through the loaded images, wrapping around at both ends. Escape or closing the window ends the program.

The project models the two pieces of `src/main.rs` that are not window or codec glue:

- `load_images`: the filter that keeps, in order, the images whose paths decode (module `Loading`, file `loading.dfy`).
- The cursor `pos` and its per-frame update inside `main`'s event loop (module `Navigation`, file `navigation.dfy`).

Module `Viewer` (`viewer.dfy`) puts the two together as `main` does: load, then loop.

The image decoder (`image::open`) is the function parameter `open: string -> Option<I>`. `Some(image)` means the decode succeeded. The image type `I` is left generic.

One frame's arrow keys are the record `Keys(left, right)`. The event loop runs over `ticks`, the key states of the frames that ran before the window closed or Escape was held. It returns the image each frame showed.

The cursor update is `Navigation.Step`. It has an independent modular reference: the move is `(pos + Offset(keys)) mod len`, where Left counts as -1, Right as +1, and Left wins when both are pressed. `Navigation.Run` folds `Step` over a run of frames. Lemmas about `Step` and `Run` give the cursor's bound, its inverse pair and its cycle.

With an empty image list the program panics on the first frame. Either `images.len() - 1` underflows (line 66 or 69) or `images[0]` is out of bounds (line 76). `Step` therefore requires `len > 0`. `EventLoop` and `Session` model that panic as the result `panicked`, and state exactly when it happens.

`src/main.rs` has only Left/Right navigation: there is no rotation, no copy or move, no delete and no shrinking of the list. Paths are filtered only by whether `image::open` succeeds on them.

## Model

| member | source | states |
|---|---|---|
| Navigation.Step | src/main.rs:62-74 | For a non-empty list and an in-bounds cursor, one frame keeps the cursor in bounds and moves it to `(pos + Offset(keys)) mod len`: -1 for Left, +1 for Right, 0 for neither. The list must be non-empty because `len - 1` underflows otherwise. |
| Navigation.Run | src/main.rs:60-76 | After any run of frames starting from an in-bounds cursor (in particular the initial `pos = 0`), the cursor is still in bounds, so `images[pos]` is a valid index on every iteration. |
| Navigation.RightMove | src/main.rs:68-74 | Right at the last index wraps to 0. Right at any other index moves forward exactly one place. |
| Navigation.LeftMove | src/main.rs:62-67 | Left at index 0 wraps to `len - 1`. Left at any other index moves back exactly one place. |
| Navigation.KeyPriority | src/main.rs:61-74 | With both keys pressed, the frame acts exactly like Left alone (the `else if`). With only Right pressed it acts like Right. With neither pressed the cursor is unchanged. |
| Navigation.LeftRightInverse | src/main.rs:62-74 | On a non-empty list, Left then Right, and Right then Left, both return the cursor to where it was, including across the wrap. |
| Navigation.RunIsNetOffset | src/main.rs:60-74 | A run of frames from an in-bounds cursor lands at `(pos + NetOffset(ticks)) mod len`, where `NetOffset` sums the per-frame moves. |
| Navigation.RunReturns | src/main.rs:62-74 | Any run of frames whose moves cancel out modulo `len` returns the cursor to its start. |
| Navigation.NetOffsetOfRepeats | src/main.rs:62-74 | A run of identical frames moves by its length times the single frame's move. |
| Navigation.FullCycle | src/main.rs:62-74 | The cursor is cyclic: `len` consecutive Right presses, or `len` consecutive Left presses, return it to its starting index. |
| Navigation.EventLoop | src/main.rs:59-78 | The event loop panics exactly when the image list is empty and at least one frame runs. Otherwise it shows one image per frame: frame `t` shows `images[Run(0, len, ticks[..t+1])]`. |
| Loading.Decoded | src/main.rs:31-39 | The loaded list is never longer than the list of paths. |
| Loading.DecodableIndices | src/main.rs:33-36 | These are the positions of the paths that decode. They are strictly increasing, each one decodes, and every decodable position is among them. |
| Loading.DecodedIsExact | src/main.rs:31-39 | The loaded list is exactly the images of the decodable paths, in their original order. Its `j`-th image is the decoding of the `j`-th decodable path. |
| Loading.NothingDecodes | src/main.rs:31-39 | The loaded list is empty if and only if no path decodes. |
| Loading.DecodedAppend | src/main.rs:33-37 | Loading `a + b` gives the images of `a` followed by those of `b`, so loading never reorders. |
| Loading.DecodeFailureDropped | src/main.rs:34-36 | A path whose decode fails contributes nothing to the loaded list. |
| Loading.AllDecode | src/main.rs:33-37 | When every path decodes, the loaded list holds one image per path, in path order. |
| Loading.LoadImages | src/main.rs:31-39 | The loop that pushes each successfully decoded image computes exactly `Decoded(paths, open)`. |
| Viewer.Session | src/main.rs:41-78 | Given the window opened, `main` panics exactly when no path decodes and at least one frame runs. Otherwise every frame shows the decoding of some path that decodes, namely the one the cursor selects from the loaded list. |

## Left out

- Command-line parsing with clap (`get_commandline_arguments`, src/main.rs:8-29): a wrapper over an external library. The paths are a parameter.
- Image decoding (`image::open`): a foreign codec. It is the parameter `open`, and its error value is dropped, as the source drops it.
- Window creation, scale mode, the 60 fps rate limit, `set_from_image` and `update`: GUI and rendering I/O. A frame is modelled only by the image it shows. The `.unwrap()` panic at line 54 when the window cannot be created is outside the model.
- Key polling and the loop exit test (`window.is_open()`, `is_key_down(Key::Escape)`): input plumbing. The arrow keys of each frame are plain booleans, and the loop runs over the finite sequence of frames before the exit.
- Navigation.EventLoop: a panic is the flag `panicked` with no frames shown. Whether the underflow at line 66/69 panics (debug build) or wraps and then fails the index at line 76 (release build) is not distinguished. Both abort on the first frame.
- Machine-width integers: `pos` and `len` are unbounded `nat`s. `pos + 1` cannot overflow because `pos < len` holds.
