/** The TfStage post-processing stage: it keeps the inference input size,
    its configuration, the low-resolution stream it converts frames from,
    the interpreter's input tensor and the handle of the inference task it
    runs in the background. */
module Stage {
  import opened Arith
  import opened Yuv
  import opened Tensor
  import opened Scheduler

  datatype Option<T> = None | Some(value: T)

  /** Width, height and row stride of a stream, as StreamDimensions reports
      them. */
  datatype StreamInfo = StreamInfo(width: int, height: int, stride: int)
  {
    /** The planar YUV420 layout yuvToRgb reads: even height and stride and
        a stride no smaller than the width. */
    predicate IsYuv420()
    {
      0 <= width <= stride && height % 2 == 0 && stride % 2 == 0
    }
  }

  /** The dimensions a stage records when a stream is absent. */
  const NoDims := StreamInfo(0, 0, 0)

  /** The parameters Read looks up; None where the JSON leaves one out. */
  datatype Params = Params(numberOfThreads: Option<int>, refreshRate: Option<Int32>,
                           modelFile: Option<string>, verbose: Option<int>)

  datatype Config = Config(numberOfThreads: int, refreshRate: Int32, modelFile: string, verbose: int)

  function Get<T>(p: Option<T>, default: T): T
  {
    if p.Some? then p.value else default
  }

  /** The configuration Read builds, with its defaults: two threads, a
      refresh rate of 5, no model file and verbosity 0. */
  function ConfigFrom(p: Params): Config
  {
    Config(Get(p.numberOfThreads, 2), Get(p.refreshRate, 5), Get(p.modelFile, ""), Get(p.verbose, 0))
  }

  class TfStage {
    /** The inference input size, tf_w_ and tf_h_. */
    const tfW: int
    const tfH: int

    var config: Config

    /** initialise has completed: the interpreter exists and its input
        tensor passed the type and size check. */
    var initialised: bool
    var inputType: TensorType
    /** The bytes of the interpreter's input tensor. */
    var tensor: array<Byte>

    /** lores_stream_ is set, and lores_w_, lores_h_, lores_stride_. */
    var hasLores: bool
    var loresDims: StreamInfo

    /** main_stream_ is set, and main_w_, main_h_, main_stride_. */
    var hasMain: bool
    var mainDims: StreamInfo

    /** The state of future_, and tensor_input_, the converted frame the
        last task started with. */
    var task: TaskState
    var tensorInput: seq<Byte>

    /** The stage's invariant: a positive input size; a low-resolution
        stream is only kept when the input fits inside it; a running task
        has an interpreter and a whole converted frame to feed it; an
        accepted 8-bit input tensor holds one converted frame. */
    predicate Valid()
      reads this
    {
      0 < tfW && 0 < tfH
      && (hasLores ==> Lores().Valid())
      && (|tensorInput| == 0 || |tensorInput| == 3 * Mul(tfH, tfW))
      && (task == Running ==> initialised && |tensorInput| == 3 * Mul(tfH, tfW))
      && (initialised && inputType == UInt8 ==> tensor.Length == 3 * Mul(tfH, tfW))
    }

    /** The geometry yuvToRgb works with. */
    function Lores(): Geometry
      reads this
    {
      Geometry(tfW, tfH, loresDims.width, loresDims.height, loresDims.stride)
    }

    /** The constructor when it does not throw: the dimensions are positive
        and are kept unchanged. */
    constructor(tfW: int, tfH: int)
      requires 0 < tfW && 0 < tfH
      ensures Valid() && this.tfW == tfW && this.tfH == tfH
      ensures !initialised && !hasLores && task == NoTask && tensorInput == []
    {
      this.tfW := tfW;
      this.tfH := tfH;
      config := ConfigFrom(Params(None, None, None, None));
      initialised := false;
      inputType := UInt8;
      tensor := new Byte[0];
      hasLores, loresDims := false, NoDims;
      hasMain, mainDims := false, NoDims;
      task := NoTask;
      tensorInput := [];
    }

    /** Constructing a stage fails exactly when a dimension is not
        positive. */
    static method Create(tfW: int, tfH: int) returns (stage: Option<TfStage>)
      ensures stage.None? <==> tfW <= 0 || tfH <= 0
      ensures stage.Some? ==> fresh(stage.value) && stage.value.Valid()
                              && stage.value.tfW == tfW && stage.value.tfH == tfH
    {
      if tfW <= 0 || tfH <= 0 {
        return None;
      }
      var s := new TfStage(tfW, tfH);
      return Some(s);
    }

    /** Read: the configuration with its defaults, then initialise. */
    method Read(p: Params, backend: Backend) returns (status: InitStatus)
      requires Valid()
      modifies this`config, this`initialised, this`inputType, this`tensor
      ensures Valid() && config == ConfigFrom(p)
      ensures status == Initialised(backend)
      ensures status == InitOk ==> initialised && inputType == backend.input.kind
                                   && fresh(tensor) && tensor.Length == backend.input.bytes
      ensures status != InitOk ==> initialised == old(initialised) && inputType == old(inputType)
                                   && tensor == old(tensor)
    {
      config := ConfigFrom(p);
      status := Initialise(backend);
    }

    /** How initialise ends for what the library answers: the first of the
        load, interpreter and allocation failures, else the input check. */
    function Initialised(backend: Backend): (status: InitStatus)
      reads this
      ensures !backend.modelLoads ==> status == LoadFailed
      ensures backend.modelLoads && !backend.interpreterBuilds ==> status == InterpreterFailed
      ensures backend.modelLoads && backend.interpreterBuilds && !backend.tensorsAllocate
              ==> status == AllocateFailed
      ensures status == InitOk <==>
                backend.modelLoads && backend.interpreterBuilds && backend.tensorsAllocate
                && ((backend.input.kind == UInt8 && backend.input.bytes == tfW * tfH * 3)
                    || (backend.input.kind == Float32 && backend.input.bytes == tfW * tfH * 3 * 4))
    {
      if !backend.modelLoads then LoadFailed
      else if !backend.interpreterBuilds then InterpreterFailed
      else if !backend.tensorsAllocate then AllocateFailed
      else CheckInput(tfW, tfH, backend.input)
    }

    /** initialise: on success the stage holds the interpreter and a fresh
        input tensor of the size it reports; an exception leaves the stage
        as it was. */
    method Initialise(backend: Backend) returns (status: InitStatus)
      requires Valid()
      modifies this`initialised, this`inputType, this`tensor
      ensures Valid() && status == Initialised(backend)
      ensures status == InitOk ==> initialised && inputType == backend.input.kind
                                   && fresh(tensor) && tensor.Length == backend.input.bytes
      ensures status != InitOk ==> initialised == old(initialised) && inputType == old(inputType)
                                   && tensor == old(tensor)
    {
      status := Initialised(backend);
      if status == InitOk {
        MulIsProduct(tfH, tfW);
        initialised := true;
        inputType := backend.input.kind;
        tensor := new Byte[backend.input.bytes];
      }
    }

    /** Configure: the low-resolution stream is kept only when the input
        fits inside it; its dimensions are recorded either way, and are 0
        without a stream. The main stream's dimensions are recorded too. */
    method Configure(lores: Option<StreamInfo>, main: Option<StreamInfo>)
      requires Valid()
      requires lores.Some? ==> lores.value.IsYuv420()
      modifies this`hasLores, this`loresDims, this`hasMain, this`mainDims
      ensures Valid()
      ensures hasLores <==> lores.Some? && tfW <= lores.value.width && tfH <= lores.value.height
      ensures lores.None? ==> loresDims == NoDims
      ensures lores.Some? ==> loresDims == lores.value
      ensures hasMain <==> main.Some?
      ensures main.None? ==> mainDims == NoDims
      ensures main.Some? ==> mainDims == main.value
    {
      var dims := NoDims;
      var stream := lores.Some?;
      if stream {
        dims := lores.value;
        if tfW > dims.width || tfH > dims.height {
          stream := false;
        }
      }
      hasLores, loresDims := stream, dims;
      dims := NoDims;
      stream := main.Some?;
      if stream {
        dims := main.value;
      }
      hasMain, mainDims := stream, dims;
    }

    /** Process for a completed request with this sequence number, whose
        low-resolution buffer is `frame`: without a usable stream nothing
        happens; otherwise a task is started with the converted frame when
        the launch rule says so. It never claims the request. */
    method Process(sequence: Uint32, frame: seq<Byte>) returns (drop: bool)
      requires Valid() && initialised
      requires hasLores ==> |frame| >= Lores().BufferSize()
      modifies this`task, this`tensorInput
      ensures Valid() && !drop
      ensures !hasLores ==> task == old(task) && tensorInput == old(tensorInput)
      ensures hasLores ==> task == Step(config.refreshRate, old(task), Frame(sequence))
      ensures hasLores && Launches(config.refreshRate, sequence, old(task))
              ==> tensorInput == Converted(Lores(), frame)
      ensures !(hasLores && Launches(config.refreshRate, sequence, old(task)))
              ==> tensorInput == old(tensorInput)
    {
      if !hasLores {
        return false;
      }
      if config.refreshRate != 0 && sequence % AsUnsigned(config.refreshRate) == 0 && task != Running {
        tensorInput := YuvToRgb(Lores(), frame);
        MulIsProduct(tfH, tfW);
        task := Running;
      }
      return false;
    }

    /** The started task running to completion: runInference copies the
        converted frame byte for byte into an 8-bit input tensor, and the
        task handle becomes ready. */
    method RunInference()
      requires Valid() && task == Running
      modifies this`task, tensor
      ensures Valid() && task == Step(config.refreshRate, old(task), Finish)
      ensures inputType == UInt8 ==> tensor[..] == tensorInput
    {
      if inputType == UInt8 {
        var i := 0;
        while i < |tensorInput|
          invariant 0 <= i <= |tensorInput| == tensor.Length
          invariant tensor[..i] == tensorInput[..i]
        {
          tensor[i] := tensorInput[i];
          i := i + 1;
        }
      }
      task := Done;
    }

    /** Stop waits for a running task to complete, so afterwards no task is
        running. */
    method Stop()
      requires Valid()
      modifies this`task, tensor
      ensures Valid() && task != Running
      ensures old(task) != Running ==> task == old(task) && unchanged(tensor)
      ensures old(task) == Running && inputType == UInt8 ==> tensor[..] == tensorInput
    {
      if task == Running {
        RunInference();
      }
    }
  }
}
