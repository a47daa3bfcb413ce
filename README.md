# TfStage: a verified model of the TensorFlow Lite post-processing stage

This project models `TfStage`, the base class of the rpicam-apps stages that
run a TensorFlow Lite model on camera frames. It covers:

- The stage's lifecycle: construction with the inference input size, `Read`
  and `initialise`, `Configure`, `Process` for each completed request, the
  background inference task, and `Stop`.
- The colour converter `yuvToRgb`. It takes a centred, chroma-aligned crop of
  the planar YUV420 low-resolution frame and turns it into packed 8-bit
  R, G, B triples, which become the model's input.

Modules:

- `Arith` (arith.dfy): multiplication as a recursive function `Mul`, and the
  row-major index facts the converter's proofs use.
- `Yuv` (yuv.dfy): the crop and buffer geometry, the colour formulas, the
  converted image as a specification function `Converted`, and the converter
  itself as the imperative method `YuvToRgb`. Its inner loop is `ConvertRow`,
  which advances the luma pointer after every pixel and the chroma pointers
  after every odd pixel. Both are proved equal to the specification.
- `Tensor` (tensor.dfy): the input tensor as a (type, size) record, what the
  interpreter library answers during set-up, and the type and size check of
  `initialise`.
- `Scheduler` (scheduler.dfy): the launch rule of `Process` as a state
  machine over `NoTask | Running | Done`, with traces of frames and task
  completions. The proved invariant is that every started task either
  completed or is the single one still running.
- `Stage` (stage.dfy): the class `TfStage`. Its methods update its fields
  as the source updates the C++ members, and `Valid()` is the class
  invariant. The stage header (tf_stage.hpp) is not part of this model, so
  the fields stand for the members the .cpp file uses:
  - `tfW`, `tfH`: `tf_w_`, `tf_h_`;
  - `config`: `*config_` (without the two float normalisation values);
  - `initialised`, `inputType`, `tensor`: `model_` and `interpreter_` after
    a successful `initialise`, the input tensor's type, and its buffer as
    returned by `typed_tensor<uint8_t>`;
  - `hasLores`, `loresDims`: whether `lores_stream_` is non-null, and
    `lores_w_`, `lores_h_`, `lores_stride_` as one `StreamInfo` value;
  - `hasMain`, `mainDims`: the same for `main_stream_` and `main_w_`,
    `main_h_`, `main_stride_`;
  - `task`: the state of `future_` (absent, running, or ready);
  - `tensorInput`: `tensor_input_`.
  The mutexes `future_mutex_` and `output_mutex_` have no counterpart.

The colour formulas use the code's own coefficients (1.402, 0.345, 0.714,
1.771). They are taken as exact thousandths. The value is truncated toward
zero, as the conversion of a double to `int` does, and then clamped to
0..255. These coefficients are close to BT.601 but not equal to it, and the
model follows the code.

`refresh_rate` is an `int`, while a request's sequence number is an
`unsigned int`. In `sequence % refresh_rate` the rate is therefore converted
to unsigned, i.e. taken modulo 2^32 (`Scheduler.AsUnsigned`). The
`CompletedRequest` header is not part of this model, so the `unsigned int`
type of the sequence number is an assumption.

## Model

| member | source | states |
|---|---|---|
| Yuv.EvenHalf | post_processing_stages/tf_stage.cpp:131 | `(n / 2) & ~1` is even, non-negative, and leaves at most 3 of the slack n uncovered on the far side (2r <= n < 2r + 4) |
| Yuv.CropFits | post_processing_stages/tf_stage.cpp:131 | both crop offsets are even and non-negative, and the crop lies inside the low-resolution frame when the input fits in it |
| Yuv.BufferIsOneAndAHalfPlanes | post_processing_stages/tf_stage.cpp:132 | with even height and stride, luma plus two chroma planes of (h/2)(stride/2) bytes are exactly 3/2 of the luma plane |
| Yuv.SampleLocations | post_processing_stages/tf_stage.cpp:131-145 | pixel (x, y) reads luma at row y+off_y, column x+off_x of the luma plane, and U and V at row (y+off_y)/2, column (x+off_x)/2 of their planes; every read lies inside its plane and below h·stride·3/2 |
| Yuv.ChromaSharedByBlock | post_processing_stages/tf_stage.cpp:137-145 | two output pixels read the same U (and the same V) sample if and only if they lie in the same 2x2 block |
| Yuv.TruncThousandths | post_processing_stages/tf_stage.cpp:147-149 | converting a value given in thousandths to int truncates toward zero, for both signs |
| Yuv.TruncMonotone | post_processing_stages/tf_stage.cpp:147-149 | truncation toward zero preserves order |
| Yuv.BrighterLumaBrighterPixel | post_processing_stages/tf_stage.cpp:147-149 | for a fixed chroma pair, a larger luma never gives a smaller R, G or B |
| Yuv.NeutralChromaIsGrey | post_processing_stages/tf_stage.cpp:147-149 | with U = V = 128 all three channels equal the luma sample (128 stays 128, 255 stays 255, 0 stays 0) |
| Yuv.NeutralPixelIsGrey | post_processing_stages/tf_stage.cpp:134-153 | when both chroma planes are 128, the output triple of every pixel repeats that pixel's luma sample |
| Yuv.Converted | post_processing_stages/tf_stage.cpp:128 | the converted image is exactly tf_h · tf_w · 3 bytes |
| Yuv.PixelLayout | post_processing_stages/tf_stage.cpp:134-153 | pixel (x, y) is at bytes 3(y·tf_w + x) .. +2 of the output, in the order R, G, B, with the colour of its own luma sample and its block's chroma pair |
| Yuv.PixelReads | post_processing_stages/tf_stage.cpp:136-145 | pixel x of row y reads luma x bytes after the row's luma start and U, V x/2 bytes after the row's chroma starts, all inside the buffer |
| Yuv.RowBytesPacked | post_processing_stages/tf_stage.cpp:139-153 | converting pixels from read positions that yield a row's pixels packs exactly that row |
| Yuv.RowReads | post_processing_stages/tf_stage.cpp:136-153 | converting tf_w pixels from the row's start positions gives row y of the image, packed, with every read inside the buffer |
| Yuv.RowStartReads | post_processing_stages/tf_stage.cpp:131-138 | the start pointers computed from off_x, off_y, src_size and src_U_size are the row's start positions |
| Yuv.ConvertRow | post_processing_stages/tf_stage.cpp:139-154 | the inner loop, stepping the luma pointer every pixel and the chroma pointers after odd x, writes exactly the packed row read from its start positions |
| Yuv.YuvToRgb | post_processing_stages/tf_stage.cpp:126-158 | the converter returns exactly the converted image, reading only inside the YUV420 buffer |
| Tensor.CheckInput | post_processing_stages/tf_stage.cpp:48-61 | accepted iff UInt8 with tf_w·tf_h·3 bytes or Float32 with tf_w·tf_h·3·4 bytes; any other type is unsupported, otherwise a size mismatch |
| Tensor.TypeCheckedFirst | post_processing_stages/tf_stage.cpp:52-57 | whether the type is refused does not depend on the tensor's size |
| Tensor.AcceptedTensorFitsImage | post_processing_stages/tf_stage.cpp:51-53 | an accepted 8-bit tensor has exactly as many bytes as the converted frame |
| Tensor.AcceptedFloatTensorFitsImage | post_processing_stages/tf_stage.cpp:54-55 | an accepted float tensor has four bytes per byte of the converted frame |
| Scheduler.AsUnsigned | post_processing_stages/tf_stage.cpp:103 | the rate converted to unsigned is congruent to it modulo 2^32, and unchanged when non-negative |
| Scheduler.DueFrames | post_processing_stages/tf_stage.cpp:103 | a positive rate selects the frames whose sequence number it divides; a rate of -1 selects only frames 0 and 2^32 - 1 |
| Scheduler.OneInFlight | post_processing_stages/tf_stage.cpp:103-111 | over any trace, launched + running-before = completed + running-after: tasks never overlap |
| Scheduler.AtMostOneAhead | post_processing_stages/tf_stage.cpp:103-111 | from no task, at most one more task has been launched than has completed |
| Scheduler.DisabledNeverLaunches | post_processing_stages/tf_stage.cpp:103 | refresh_rate 0 never launches a task, on any trace |
| Scheduler.StaysRunning | post_processing_stages/tf_stage.cpp:103-104 | while a task runs and does not complete, frames launch nothing and it stays running |
| Stage.TfStage.constructor | post_processing_stages/tf_stage.cpp:10-14 | with positive dimensions the stage keeps them unchanged and starts with no stream and no task |
| Stage.TfStage.Create | post_processing_stages/tf_stage.cpp:10-14 | construction fails iff tf_w <= 0 or tf_h <= 0 |
| Stage.TfStage.Read | post_processing_stages/tf_stage.cpp:16-28 | the configuration takes each parameter or its default (2 threads, refresh rate 5, empty model file, verbosity 0), then initialise runs |
| Stage.TfStage.Initialised | post_processing_stages/tf_stage.cpp:30-61 | load, interpreter and allocation failures come first, in that order; success iff all three succeed and the input check accepts |
| Stage.TfStage.Initialise | post_processing_stages/tf_stage.cpp:30-62 | on success the stage records the input type and a tensor of the reported size; on failure it is unchanged |
| Stage.TfStage.Configure | post_processing_stages/tf_stage.cpp:64-94 | the low-resolution stream is kept iff it exists and tf_w <= width and tf_h <= height; its dimensions are 0 when it is absent; the main stream's dimensions are recorded |
| Stage.TfStage.Process | post_processing_stages/tf_stage.cpp:96-124 | returns false; without a usable stream nothing changes; otherwise the task takes the launch rule's step, and a launch stores the converted frame as the tensor input |
| Stage.TfStage.RunInference | post_processing_stages/tf_stage.cpp:160-182 | the 8-bit tensor receives the converted frame byte for byte, and the task completes |
| Stage.TfStage.Stop | post_processing_stages/tf_stage.cpp:184-188 | after Stop no task is running; a running task is completed first |

## Left out

- The TensorFlow Lite library calls (`BuildFromFile`, `InterpreterBuilder`, `AllocateTensors`, `typed_tensor`) are not modelled. Their answers are the `Tensor.Backend` parameter of `initialise`.
- `SetNumThreads` (tf_stage.cpp:42-43) is not modelled: it is a call into the library with no effect on the stage's state.
- `Invoke` and its failure (tf_stage.cpp:177-178) are not modelled: they are a foreign call.
- The hooks `interpretOutputs`, `applyResults`, `readExtras` and `checkConfiguration` are not modelled. Their bodies belong to the derived stages.
- Concurrency is not modelled: `std::async`, the futures and the two mutexes. A task's completion is the method `RunInference`, called as an event from outside.
- The timing with `ExecutionTime` and all `std::cout` logging are not modelled.
- `app_->Mmap`, `LoresStream`, `GetMainStream` and `StreamDimensions` are not modelled. The frame buffer and the stream descriptions are parameters of `Process` and `Configure`.
- The float32 normalisation fill (tf_stage.cpp:170-175) and the `normalisation_offset` and `normalisation_scale` parameters of `Read` are not modelled: they are floating-point numerics.
- Stage.TfStage.RunInference: the model does not write a float32 tensor at all, whereas the source fills every element with `(tensor_input_[i] - normalisation_offset) / normalisation_scale`; its contract promises nothing about a float32 tensor's contents, because that fill is floating-point.
- Yuv.TruncThousandths: the double arithmetic of the colour formulas is taken as exact rational arithmetic. IEEE rounding is not claimed to agree in every case.
- Yuv.YuvToRgb: the pre-sized output vector, filled through a moving pointer, is modelled as a sequence that grows by three bytes per pixel. The bytes and their order are the same.
- Yuv.YuvToRgb: C++ `int` overflow of `tf_h_ * tf_w_ * 3` and of the pointer offsets is not modelled, because integers here are unbounded.
- Tensor.CheckInput: the `int` product `tf_w_ * tf_h_ * 3` is not wrapped, because integers here are unbounded.
- Stage.TfStage.Configure: requires a present low-resolution stream to be YUV420 with even height and stride and a stride no smaller than its width. The plane sizes `(lores_h_/2)*(lores_stride_/2)` that yuvToRgb computes describe that layout only.
- Stage.TfStage.Process: requires `initialise` to have succeeded, because the application calls `Read` before `Process` and a failed `initialise` throws out of `Read`. It also requires the frame to hold a whole YUV420 buffer of the stream.
- Stage.TfStage.Initialise: a throw leaves the stage unchanged in the model, whereas the source may already have replaced `model_` or `interpreter_`. After such a throw the stage is not used again.
- Stage.TfStage.RunInference: requires a running task, since it only runs as the launched task.
- Stage.TfStage.Stop: waiting on the future is modelled as the running task running to completion.
- Stage.TfStage.constructor: the stage header (tf_stage.hpp) is not part of this model, so the configuration a new stage starts with is taken to be `Read`'s defaults.
- utils/dust_img.py is not modelled: it is a script that reads a raw image and displays it through libraries.
