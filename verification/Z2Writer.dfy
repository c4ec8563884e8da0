/** mtfw.py: the steps of the touch firmware's personality written as a Z2FW file. */
module Z2Writer {
  import opened Bytes

  datatype LoadStep =
    | Binary(address: nat, payload: seq<byte>)
    | Property(address: nat)
    | RequestCalibration
    | ReadModifyWrite(address: nat, mask: nat, value: nat)
    | Config
    | Other

  /** struct.error for a field that does not fit, or a step type nobody knows. */
  datatype BuildError = FieldTooLarge | UnknownStep

  const SEND_BLOB := 1
  const SEND_CALIBRATION := 2
  const CMD_DATA := 0x3001
  const CMD_REGISTER := 0x1e33
  const CMD_CALIBRATE := 0x1f01
  const MAGIC: seq<byte> := [0x5a, 0x32, 0x46, 0x57]

  function Sum(s: seq<byte>): nat {
    if s == [] then 0 else s[0] + Sum(s[1..])
  }

  function Pad4(b: seq<byte>): (r: seq<byte>)
    ensures |r| == |b| + Padding(|b|, 4) && |r| % 4 == 0 && b <= r
  {
    b + Repeat(0, Padding(|b|, 4))
  }

  /** nwords, address */
  function DataHeader(address: nat, n: nat): (h: seq<byte>)
    ensures |h| == 8
  {
    ToLE(CMD_DATA, 2) + ToLE((n + 3) / 4, 2) + ToLE(address, 4)
  }

  /** A data packet: header, checksum of the header after its command, payload, sum of the payload. */
  function DataBlob(address: nat, payload: seq<byte>): (b: seq<byte>)
    ensures |b| == 14 + |payload|
  {
    var h := DataHeader(address, |payload|);
    h + ToLE(Sum(h[2..]) % 0x1_0000, 2) + payload + ToLE(Sum(payload) % 0x1_0000_0000, 4)
  }

  function RegisterBlob(address: nat, mask: nat, value: nat): (b: seq<byte>)
    ensures |b| == 16
  {
    var d := ToLE(CMD_REGISTER, 2) + ToLE(address, 4) + ToLE(mask, 4) + ToLE(value, 4);
    d + ToLE(Sum(d[2..]) % 0x1_0000, 2)
  }

  function BlobRecord(b: seq<byte>): (r: seq<byte>)
    ensures |r| == 8 + |b| + Padding(|b|, 4) && |r| % 4 == 0
  {
    ToLE(SEND_BLOB, 4) + ToLE(|b|, 4) + Pad4(b)
  }

  predicate Encodable(s: LoadStep) {
    match s
    case Binary(a, p) => Fits32(a) && (|p| + 3) / 4 < 0x1_0000
    case Property(a) => Fits32(a)
    case ReadModifyWrite(a, m, v) => Fits32(a) && Fits32(m) && Fits32(v)
    case _ => true
  }

  function StepRecord(s: LoadStep): (r: seq<byte>)
    requires Encodable(s)
    ensures |r| % 4 == 0
  {
    match s
    case Binary(a, p) => BlobRecord(DataBlob(a, p))
    case Property(a) => ToLE(SEND_CALIBRATION, 4) + ToLE(a, 4)
    case RequestCalibration => BlobRecord(ToLE(CMD_CALIBRATE, 2))
    case ReadModifyWrite(a, m, v) => BlobRecord(RegisterBlob(a, m, v))
    case Config => []
    case Other => []
  }

  function Problem(s: LoadStep): Option<BuildError> {
    if s.Other? then Some(UnknownStep) else if !Encodable(s) then Some(FieldTooLarge) else None
  }

  function FileHeader(): (h: seq<byte>)
    ensures |h| == 8
  {
    MAGIC + ToLE(1, 4)
  }

  /** The records of the steps, or the first problem. */
  function Records(steps: seq<LoadStep>): Result<seq<byte>, BuildError> {
    if steps == [] then Ok([])
    else if Problem(steps[0]).Some? then Err(Problem(steps[0]).value)
    else
      match Records(steps[1..])
      case Err(e) => Err(e)
      case Ok(rest) => Ok(StepRecord(steps[0]) + rest)
  }

  method Build(steps: seq<LoadStep>) returns (r: Result<seq<byte>, BuildError>)
    ensures r == match Records(steps) case Err(e) => Err(e) case Ok(recs) => Ok(FileHeader() + recs)
  {
    hide StepRecord;
    var out := FileHeader();
    ghost var done: seq<byte> := [];
    ghost var all := Records(steps);
    if all.Ok? { assert [] + all.value == all.value; }
    assert out == FileHeader() + [];
    for i := 0 to |steps|
      invariant out == FileHeader() + done
      invariant match Records(steps[i..])
                case Err(e) => all == Err(e)
                case Ok(rest) => all == Ok(done + rest)
    {
      var s := steps[i];
      assert steps[i..][0] == s && steps[i..][1..] == steps[i + 1..];
      var problem := Problem(s);
      if problem.Some? {
        return Err(problem.value);
      }
      var rec := StepRecord(s);
      ghost var rest := Records(steps[i + 1..]);
      if rest.Ok? { assert done + (rec + rest.value) == done + rec + rest.value; }
      assert FileHeader() + done + rec == FileHeader() + (done + rec);
      out, done := out + rec, done + rec;
    }
    assert steps[|steps|..] == [] && done + [] == done;
    r := Ok(out);
  }
}
