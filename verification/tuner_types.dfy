/** Vocabulary shared by both tuners: the four pipeline stages, per-stage
    records (the tuning vector among them), and the reasons a tuning session
    stops with an exception. */
module TunerTypes {
  import opened Wrappers
  import opened Ints
  import opened Text

  datatype Stage = FileProcessor | VolumeDownloader | VolumeDecryptor | VolumeDecompressor

  /** The insertion order of the timing dictionary. It is also the index
      order of the tuning vector. */
  const Stages: seq<Stage> := [FileProcessor, VolumeDownloader, VolumeDecryptor, VolumeDecompressor]

  function Index(s: Stage): (i: nat)
    ensures i < 4 && Stages[i] == s
  {
    match s
    case FileProcessor => 0
    case VolumeDownloader => 1
    case VolumeDecryptor => 2
    case VolumeDecompressor => 3
  }

  /** The name a stage logs itself under, and its dictionary key. */
  function Name(s: Stage): String {
    match s
    case FileProcessor => "FileProcessor"
    case VolumeDownloader => "VolumeDownloader"
    case VolumeDecryptor => "VolumeDecryptor"
    case VolumeDecompressor => "VolumeDecompressor"
  }

  /** The `switch` on the process name: a known name selects its stage. */
  function StageNamed(name: String): (r: Option<Stage>)
    ensures forall s :: r == Some(s) <==> Name(s) == name
  {
    if name == "FileProcessor" then Some(FileProcessor)
    else if name == "VolumeDownloader" then Some(VolumeDownloader)
    else if name == "VolumeDecryptor" then Some(VolumeDecryptor)
    else if name == "VolumeDecompressor" then Some(VolumeDecompressor)
    else None
  }

  /** One value per stage. */
  datatype PerStage<T> = PerStage(fileProcessor: T, volumeDownloader: T, volumeDecryptor: T, volumeDecompressor: T) {

    function Get(s: Stage): T {
      match s
      case FileProcessor => fileProcessor
      case VolumeDownloader => volumeDownloader
      case VolumeDecryptor => volumeDecryptor
      case VolumeDecompressor => volumeDecompressor
    }

    function Put(s: Stage, x: T): (r: PerStage<T>)
      ensures r.Get(s) == x
      ensures forall t :: t != s ==> r.Get(t) == Get(t)
    {
      match s
      case FileProcessor => this.(fileProcessor := x)
      case VolumeDownloader => this.(volumeDownloader := x)
      case VolumeDecryptor => this.(volumeDecryptor := x)
      case VolumeDecompressor => this.(volumeDecompressor := x)
    }
  }

  /** The tuning vector: the worker counts of the four stages, kept as the
      strings they are passed to the pipeline as. */
  type Vec = PerStage<String>

  /** The pipeline option each vector component is passed under. */
  function OptionName(s: Stage): String {
    match s
    case FileProcessor => "restore-file-processors"
    case VolumeDownloader => "restore-volume-downloaders"
    case VolumeDecryptor => "restore-volume-decryptors"
    case VolumeDecompressor => "restore-volume-decompressors"
  }

  /** The components in index order (the `string[] tuning` array). */
  function Parts<T>(v: PerStage<T>): (xs: seq<T>)
    ensures |xs| == 4 && forall s :: xs[Index(s)] == v.Get(s)
  {
    [v.fileProcessor, v.volumeDownloader, v.volumeDecryptor, v.volumeDecompressor]
  }

  function FromParts<T>(xs: seq<T>): (v: PerStage<T>)
    requires |xs| == 4
    ensures Parts(v) == xs
  {
    PerStage(xs[0], xs[1], xs[2], xs[3])
  }

  /** `string.Join(",", tuning)`, the form the best vector is reported in. */
  function Joined(v: Vec): String {
    Join(Parts(v), ',')
  }

  /** The four concurrency options of a run, in the order they are set:
      each stage's option carries its component verbatim. */
  function ConcurrencyOptions(v: Vec): (opts: seq<(String, String)>)
    ensures |opts| == 4
    ensures forall s :: opts[Index(s)] == (OptionName(s), v.Get(s))
  {
    seq(4, i requires 0 <= i < 4 => (OptionName(Stages[i]), Parts(v)[i]))
  }

  /** Distinct runs get distinct options: the options determine the vector. */
  lemma ConcurrencyOptionsInjective(v: Vec, w: Vec)
    requires ConcurrencyOptions(v) == ConcurrencyOptions(w)
    ensures v == w
  {
    forall s ensures v.Get(s) == w.Get(s) {
      assert ConcurrencyOptions(v)[Index(s)] == ConcurrencyOptions(w)[Index(s)];
    }
    assert v.Get(FileProcessor) == w.Get(FileProcessor) && v.Get(VolumeDownloader) == w.Get(VolumeDownloader);
    assert v.Get(VolumeDecryptor) == w.Get(VolumeDecryptor) && v.Get(VolumeDecompressor) == w.Get(VolumeDecompressor);
  }

  datatype TuneError =
    | MultipleVersions(count: nat)
    | AllSizes
    | BadTuningCount(count: nat)
    | BadTuningValue(part: String)
    | BadDuration(token: String)
    | LineTooShort(length: nat)
    | MissingDash
    | BadNumber(token: String)
    | TooFewTimes(stage: Stage, count: nat)
    | SumOverflow(stage: Stage)
    | NoSamples(stage: Stage)
    | NoWallClock(count: nat)
    | WallClockOverflow
    | AverageOverflow
}
