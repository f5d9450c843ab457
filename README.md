# loutremorph: the frame bookkeeping of a face-to-otter morph GIF generator

loutremorph reads two 2048×2048 images, a human face and an otter, and a CSV
file of matched feature points. It interpolates the points, warps both images
toward each interpolated configuration, cross-fades the results and writes a
looping 256×256 GIF. The image work itself (warping, alpha-over compositing,
resizing, GIF encoding) is done by library calls. This Dafny project models
the sequential bookkeeping around those calls:

- `text.dfy`, module `Text`: Rust's `str::trim`, which the point reader applies to every field.
- `points.dfy`, module `Points`: `Points::read` and `Points::interpolate`. Reading turns the CSV
  records into a human point list and an otter point list, or fails. Interpolating produces
  the ratios `k / (steps - 1)` and one lerped configuration per ratio, over `real`.
- `cli.dfy`, module `CommandLine`: the `Cli` fields and their defaults, the frame and pause delays,
  and the output path, which by default is the human image's file stem plus `.gif`.
  `Path::file_name` and `Path::file_stem` are modelled on `/`-separated strings.
- `morph.dfy`, module `Morph`: `change_alpha` as a method that scales alpha bytes in place in an
  `array`, the `1 - ratio` opacity of each morph frame, the looping frame order `compo`,
  and the frames with their delays as they are handed to the encoder.
- `wrappers.dfy`, module `Wrappers`: `Option` and `Result`. An `Err` stands for a panic of the source.
- `ints.dfy`, module `Ints`: the source's `u32` and `u8` as bounded newtypes.

Library code the model cannot see is passed in as function-typed parameters:
`f32::from_str` and `u32::from_str` in `Points`, and the `u8` lerp of the
`interpolation` crate in `Morph`. Frames are values of a type parameter.

`src/main.rs` repeats the reading and interpolation code of `src/points.rs`
inline (lines 52-103). The model states it once, citing `src/points.rs`.

## Model

| member | source | states |
|---|---|---|
| `Text.TrimStartShape` | src/points.rs:29 | trimming the start cuts only whitespace and stops at the first non-whitespace character |
| `Text.TrimEndShape` | src/points.rs:29 | trimming the end cuts only whitespace and stops at the last non-whitespace character |
| `Text.Trim` | src/points.rs:29 | the trimmed field is no longer than the field and starts and ends with non-whitespace |
| `Text.TrimShape` | src/points.rs:29 | a trimmed field is a slice of the field with only whitespace cut off on each side, and it starts and ends with non-whitespace |
| `Text.TrimUnique` | src/points.rs:29 | that characterisation determines the trimmed field uniquely |
| `Text.TrimIdempotent` | src/points.rs:29 | trimming twice equals trimming once |
| `Text.TrimAbsorbsPadding` | src/points.rs:29 | whitespace added on either side of a field is removed again by trimming |
| `Points.Kept` | src/points.rs:17-25 | the kept records are the input records in order, without the first one exactly when it equals `hx,hy,ox,oy` |
| `Points.ParseField` | src/points.rs:29-38 | the trimmed field's f32 value when it parses as f32, otherwise its u32 value as a number; it fails only when it parses as neither, and the failure carries the trimmed text |
| `Points.ParseFields` | src/points.rs:29-49 | the fields parse in order; success means every field parses, and value `k` is what field `k` parses to |
| `Points.ParseFieldsFirstError` | src/points.rs:29-38 | a failure is the failure of the first field that does not parse, and every field before it parses |
| `Points.DecodeRecord` | src/points.rs:26-50 | a record decodes iff it has exactly 4 fields and all of them parse; fields 0,1 become the human point and fields 2,3 the otter point; a wrong field count fails with that count, before any parsing |
| `Points.DecodeAll` | src/points.rs:15-51 | decoding succeeds iff every record decodes; then human and otter have one entry per record, and record `i` gives `human[i]` and `otter[i]` |
| `Points.DecodeAllFirstError` | src/points.rs:15-51 | a failed read reports the error of the first record that fails, and all records before it decode |
| `Points.Read` | src/points.rs:12-54 | reading succeeds iff every record after a leading `hx,hy,ox,oy` header decodes; then the human and otter lists have one entry per such record, and record `skip + i` gives `human[i]` and `otter[i]`; it is the decoding of the kept records, so a failure is that of the first kept record that fails |
| `Points.LaterHeaderFails` | src/points.rs:18-38 | a header record at any index after the first is kept and makes reading fail when "hx" is not a number |
| `Points.ParseIgnoresPadding` | src/points.rs:29-38 | whitespace around a field does not change its parse result |
| `Points.Configuration` | src/points.rs:64-68 | a configuration has `min(|human|, |otter|)` points, and point `i` is the componentwise lerp of `human[i]` and `otter[i]` |
| `Points.Ratios` | src/points.rs:57-59 | there are exactly `steps` ratios, with `ratios[k] * (steps - 1) == k` |
| `Points.Interpolate` | src/points.rs:56-73 | exactly `steps` ratios and `steps` configurations (none for `steps == 0`); configuration `k` is the lerp at `ratios[k]`, point by point |
| `Points.RatiosSpan` | src/points.rs:57-59 | for `steps >= 2` the ratios start at 0, end at 1, increase strictly and lie in [0, 1] |
| `Points.LerpAffine` | src/points.rs:67 | `a + (b - a) * r` equals `a * (1 - r) + b * r` |
| `Points.LerpBetween` | src/points.rs:67 | for a ratio in [0, 1] the lerped coordinate lies between the two endpoint coordinates |
| `Points.InterpolateEndpoints` | src/points.rs:61-70 | for lists of equal length the first configuration is the human points and the last is the otter points |
| `Points.ReadThenInterpolate` | src/points.rs:12-73 | after a successful read, every configuration has one point per kept record |
| `CommandLine.Cli.PauseDuration` | src/cli.rs:45-47 | the pause delay has denominator 1 and lasts `pauseLen` frame durations |
| `CommandLine.Cli.FrameDuration` | src/cli.rs:49-51 | the frame delay is `frameDuration` milliseconds with denominator 1 |
| `CommandLine.Cli.Name` | src/cli.rs:53-55 | succeeds iff the human image path has a file name; the result is that name's stem, non-empty and without '/'; otherwise fails with `NoFileStem` |
| `CommandLine.Cli.Output` | src/cli.rs:57-62 | an explicit output path is returned unchanged; otherwise the result is the human image's file stem plus ".gif", and it fails iff there is no stem |
| `CommandLine.WithDefaults` | src/cli.rs:9-24 | with only the positional arguments given: no output path, frame duration 50, 30 interpolated frames, pause length 15 |
| `CommandLine.LastIndexOf` | src/cli.rs:54 | finds the last occurrence of a character, or reports that there is none |
| `CommandLine.FileName` | src/cli.rs:54 | `Path::file_name`: a file name is one of the '/'-separated pieces of the path, non-empty, without '/', and neither "." nor ".." |
| `CommandLine.Stem` | src/cli.rs:54 | a stem is a non-empty prefix of the file name; what follows it is empty or a '.' and an extension without '.'; it is the whole name iff no '.' follows the first character |
| `CommandLine.FileStem` | src/cli.rs:54 | `Path::file_stem`: present iff the file name is, and then a non-empty prefix of it without '/' |
| `CommandLine.StemOfExtension` | src/cli.rs:54 | the stem of `stem.ext`, where the extension has no '.', is `stem` |
| `CommandLine.FileNameOfBareName` | src/cli.rs:54 | a bare name is its own file name |
| `CommandLine.FileNameInDirectory` | src/cli.rs:54 | the file name of `dir/name` is `name` |
| `CommandLine.DefaultOutput` | src/cli.rs:53-60 | without `--output`, a human image named `stem.ext` gives the output path `stem.gif` |
| `CommandLine.OutputDependsOnHumanImageOnly` | src/cli.rs:57-62 | the output path depends only on `output` and the human image path, never on the otter image, the CSV path or the timings |
| `CommandLine.OutputFailsWithoutStem` | src/cli.rs:53-60 | without `--output`, `output()` fails exactly when the human image path has no file name |
| `CommandLine.DefaultOutputIsLocalGif` | src/cli.rs:53-60 | the default output path ends in ".gif" and has no directory part |
| `Morph.ScaledAlpha` | src/main.rs:33-37 | alpha scaling preserves the buffer length |
| `Morph.ScaledAlphaAt` | src/main.rs:33-37 | byte by byte: R, G and B bytes never change, a zero alpha stays zero, and a non-zero alpha `a` becomes `lerp(a, opacity)` |
| `Morph.TrailingBytesUnchanged` | src/main.rs:33-36 | the bytes of a trailing chunk shorter than 4 are left unchanged |
| `Morph.ChangeAlpha` | src/main.rs:29-38 | for an opacity in [0, 1], the in-place loop over 4-byte chunks leaves the buffer equal to the chunk-by-chunk specification |
| `Morph.Opacities` | src/main.rs:125 | frame `k`'s opacity is `1 - ratios[k]`; it lies in [0, 1], as `change_alpha` requires; it is 1 for the first frame and 0 for the last |
| `Morph.Compo` | src/main.rs:137-142 | the loop has `2 * pauseLen + 2 * |frames|` frames |
| `Morph.CompoSource` | src/main.rs:137-142 | every position of the loop shows one of the frames |
| `Morph.CompoAt` | src/main.rs:137-142 | position by position the loop is `pauseLen` copies of the first frame, the frames forward, `pauseLen` copies of the last frame, then the frames reversed |
| `Morph.CompoSeamless` | src/main.rs:137-142 | consecutive positions show the same or neighbouring frames, and the loop starts and ends on the first frame |
| `Morph.GifFrames` | src/main.rs:145-151 | the encoder receives the loop's frames in order, each at offset (0, 0) with the delay `frame_duration()` |
| `Morph.LoopDuration` | src/main.rs:145-151 | the lead-in pause lasts as long as `pause_duration()`, and the whole loop lasts `(2 * pauseLen + 2 * |frames|)` frame durations |
| `Morph.DefaultAnimation` | src/cli.rs:14-24 | with the defaults the animation has 90 frames, lasts 4500 ms, and the pause delay is 750 ms |

## Left out

- Image loading, RGB/RGBA conversion, the 2048×2048 dimension asserts, moving-least-squares warping, `imageops::overlay` compositing, `imageops::resize` and GIF encoding: library calls whose code is not part of this model.
- src/encoder.rs (the GIF encoder on a background thread fed by a channel) is not part of this model; its ordering is the channel's guarantee.
- CSV tokenisation, the reader's own header handling and `record.unwrap()` on a malformed line: the model starts from the records the reader yields.
- `f32::from_str`, `u32::from_str` (returning a value below 2^32) and the `u8` lerp of the `interpolation` crate: passed in as functions, because their code is not part of this model.
- f32 rounding, NaN and infinities: coordinates, ratios and opacities are `real`.
- `Points.Ratios` and `Points.Interpolate` require `steps != 1`: with one step the source divides 0 by 0 and every ratio and coordinate is NaN, which `real` cannot represent.
- `Morph.Compo` and `Morph.GifFrames` require at least one frame: with `interp_len == 0` the source panics on `frames[0]`.
- `CommandLine.Cli.PauseDuration` requires `frame_duration * pause_len` to fit in 32 bits: a debug build panics on the overflow, a release build wraps; the wrap-around is not modelled.
- `CommandLine.Cli.PauseDuration` and `CommandLine.Cli.FrameDuration`: `Delay::from_numer_denom_ms` reduces the fraction, which with denominator 1 changes nothing, so the reduction is not modelled.
- `CommandLine.FileName`: Windows prefixes, non-UTF-8 paths and `to_string_lossy` are not modelled; paths are strings with '/' as separator.
- `Morph.ChangeAlpha`: rayon's `par_chunks_mut` runs the disjoint chunks in parallel; the model runs them one after another.
- clap argument parsing, the progress bars and their style, creating the output file, the `--open` option (`opener::open`) and the encode loop's I/O.
