/** The input tensor of the TensorFlow Lite interpreter as TfStage sees it:
    its element type and its size in bytes, and the check initialise makes
    that a model expects an RGB image of the stage's input size. */
module Tensor {
  import opened Arith
  import opened Yuv

  /** Element type of the input tensor: kTfLiteUInt8, kTfLiteFloat32, or any
      other TfLiteType, identified by its code. */
  datatype TensorType = UInt8 | Float32 | OtherType(code: int)

  /** The input tensor's type and its `bytes` field (a size_t). */
  datatype InputTensor = InputTensor(kind: TensorType, bytes: nat)

  /** What the interpreter library answers while initialise sets it up:
      whether the model file loads, whether an interpreter can be built for
      it, whether its tensors can be allocated, and the first input tensor. */
  datatype Backend = Backend(modelLoads: bool, interpreterBuilds: bool, tensorsAllocate: bool,
                             input: InputTensor)

  /** How initialise ends: normally, or with one of its five exceptions. */
  datatype InitStatus =
    | InitOk
    | LoadFailed
    | InterpreterFailed
    | AllocateFailed
    | UnsupportedType
    | SizeMismatch

  /** The type and size check of initialise: the expected size is three
      bytes per pixel, scaled by the element size; the type is examined
      before the size is compared. */
  function CheckInput(tfW: int, tfH: int, input: InputTensor): (s: InitStatus)
    ensures s == InitOk || s == UnsupportedType || s == SizeMismatch
    ensures s == UnsupportedType <==> !(input.kind == UInt8 || input.kind == Float32)
    ensures s == InitOk <==>
              (input.kind == UInt8 && input.bytes == tfW * tfH * 3)
              || (input.kind == Float32 && input.bytes == tfW * tfH * 3 * 4)
  {
    var check := tfW * tfH * 3;
    match input.kind
    case UInt8 => if check * 1 != input.bytes then SizeMismatch else InitOk
    case Float32 => if check * 4 != input.bytes then SizeMismatch else InitOk
    case OtherType(_) => UnsupportedType
  }

  /** A tensor of an unsupported type is refused whatever its size, and a
      tensor of a supported type is never refused for its type. */
  lemma TypeCheckedFirst(tfW: int, tfH: int, kind: TensorType, bytes1: nat, bytes2: nat)
    ensures CheckInput(tfW, tfH, InputTensor(kind, bytes1)) == UnsupportedType
            <==> CheckInput(tfW, tfH, InputTensor(kind, bytes2)) == UnsupportedType
  {
  }

  /** An accepted 8-bit input tensor holds exactly the bytes yuvToRgb
      produces for a frame, so the copy of runInference fills it. */
  lemma AcceptedTensorFitsImage(g: Geometry, src: seq<Byte>, input: InputTensor)
    requires g.Valid() && |src| >= g.BufferSize()
    requires input.kind == UInt8 && CheckInput(g.tfW, g.tfH, input) == InitOk
    ensures |Converted(g, src)| == input.bytes
  {
  }

  /** An accepted 32-bit float tensor holds four bytes per byte yuvToRgb
      produces, one float per colour sample. */
  lemma AcceptedFloatTensorFitsImage(g: Geometry, src: seq<Byte>, input: InputTensor)
    requires g.Valid() && |src| >= g.BufferSize()
    requires input.kind == Float32 && CheckInput(g.tfW, g.tfH, input) == InitOk
    ensures 4 * |Converted(g, src)| == input.bytes
  {
  }
}
