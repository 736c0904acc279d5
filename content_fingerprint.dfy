/** The orchestrator: one media file, classified once, fingerprinted by the fingerprinter of its
    modality, and compared with another file's fingerprint of that modality. */
module ContentFingerprinting {
  import opened Outcome
  import opened MediaKind
  import opened Comparator
  import opened ImageHash
  import opened PeakPicking
  import opened FrameReading

  /** The result of `compare`: the score of the one modality compared, the other absent, and
      their sum with an absent score read as 0. */
  datatype SimilarityReport = SimilarityReport(
    audioSimilarity: Option<real>,
    videoSimilarity: Option<real>,
    overallSimilarity: real)

  /** The other file's fingerprints by modality; `None` stands for a missing dictionary key. */
  datatype OtherFingerprints = OtherFingerprints(audio: Option<seq<Peak>>, video: Option<seq<string>>)

  /** The video fingerprint of a sequence of frames: one average hash per frame, in frame order. */
  function VideoFingerprint(frames: seq<Grid>): (fingerprint: seq<string>)
    ensures |fingerprint| == |frames|
    ensures forall i :: 0 <= i < |frames| ==>
      fingerprint[i] == AverageHash(frames[i]) && |fingerprint[i]| == |Flatten(frames[i])|
  {
    seq(|frames|, i requires 0 <= i < |frames| => AverageHash(frames[i]))
  }

  /** Frames resized to 32x32 give one hash per frame, each of 1024 characters '0' and '1'. */
  lemma VideoFingerprintOfResizedFrames(frames: seq<Grid>)
    requires forall i :: 0 <= i < |frames| ==> |frames[i]| == HashSide && IsRectangle(frames[i], HashSide)
    ensures |VideoFingerprint(frames)| == |frames|
    ensures forall i :: 0 <= i < |frames| ==>
      |VideoFingerprint(frames)[i]| == 1024
      && forall j :: 0 <= j < 1024 ==> VideoFingerprint(frames)[i][j] in "01"
  {
    forall i | 0 <= i < |frames|
      ensures |VideoFingerprint(frames)[i]| == 1024
    {
      HashLengthOfResizedFrame(frames[i]);
    }
  }

  /** The report dictionary built from the one score computed. */
  function Report(kind: MediaType, similarity: real): (report: SimilarityReport)
    ensures report.audioSimilarity == (if kind == Audio then Some(similarity) else None)
    ensures report.videoSimilarity == (if kind == Video then Some(similarity) else None)
    ensures report.overallSimilarity == OrZero(report.audioSimilarity) + OrZero(report.videoSimilarity)
    ensures report.overallSimilarity == similarity
  {
    match kind
    case Audio => SimilarityReport(Some(similarity), None, OrZero(Some(similarity)) + OrZero(None))
    case Video => SimilarityReport(None, Some(similarity), OrZero(None) + OrZero(Some(similarity)))
  }

  /** Scores `mine` against the other file's fingerprint of modality `kind`: fails when that
      fingerprint is missing or when both are empty; otherwise only the score of `kind` is
      present, and the overall score is that score. */
  function Score<T(==)>(kind: MediaType, mine: seq<T>, theirs: Option<seq<T>>): (r: Result<SimilarityReport>)
    ensures theirs.None? ==> r == Err(MissingFingerprint)
    ensures theirs.Some? && |mine| == 0 && |theirs.value| == 0 ==> r == Err(DivisionByZero)
    ensures r.Ok? <==> theirs.Some? && (|mine| > 0 || |theirs.value| > 0)
    ensures r.Ok? ==>
      && (r.value.audioSimilarity.Some? <==> kind == Audio)
      && (r.value.videoSimilarity.Some? <==> kind == Video)
      && r.value.overallSimilarity == OrZero(r.value.audioSimilarity) + OrZero(r.value.videoSimilarity)
      && r.value.overallSimilarity == Similarity(mine, theirs.value)
      && 0.0 <= r.value.overallSimilarity <= 1.0
  {
    match theirs
    case None => Err(MissingFingerprint)
    case Some(other) =>
      match CompareFingerprints(mine, other)
      case Err(e) => Err(e)
      case Ok(s) => Ok(Report(kind, s))
  }

  /** A non-empty fingerprint compared with itself reports exactly 1 for its modality and overall. */
  lemma SelfComparisonScoresOne<T>(kind: MediaType, fingerprint: seq<T>)
    requires |fingerprint| > 0
    ensures Score(kind, fingerprint, Some(fingerprint)) == Ok(Report(kind, 1.0))
    ensures Report(kind, 1.0).overallSimilarity == 1.0
  {
    SelfSimilarity(fingerprint);
  }

  class ContentFingerprint {
    const mediaType: MediaType
    /** The video clip's frame reader; null for an audio file. */
    const clip: FrameReader?
    /** The audio's decibel spectrogram; `None` for a video file. */
    const spectrogram: Option<Matrix>

    /** Exactly the payload of the media type is present. */
    predicate Valid()
    {
      (clip != null <==> mediaType == Video) && (spectrogram.Some? <==> mediaType == Audio)
    }

    /** Decodes the file at `path` as `kind`: a frame reader for video, a spectrogram for audio. */
    constructor (kind: MediaType, path: string,
                 decodeFrames: string -> seq<Option<Grid>>, decodeSpectrogram: string -> Matrix)
      requires Classify(path) == Ok(kind)
      ensures Valid() && mediaType == kind
      ensures kind == Video ==> fresh(clip) && clip.outcomes == decodeFrames(path) && clip.position == 0
      ensures kind == Audio ==> spectrogram == Some(decodeSpectrogram(path))
    {
      mediaType := kind;
      if kind == Video {
        clip := new FrameReader(decodeFrames(path));
        spectrogram := None;
      } else {
        clip := null;
        spectrogram := Some(decodeSpectrogram(path));
      }
    }

    /** `ContentFingerprint(...)`: classify `path` and reject an unsupported extension before
        anything is decoded; otherwise decode the payload of its media type. */
    static method Open(path: string,
                       decodeFrames: string -> seq<Option<Grid>>, decodeSpectrogram: string -> Matrix)
      returns (r: Result<ContentFingerprint>)
      ensures r.Err? <==> Classify(path).Err?
      ensures r.Err? ==> r.error == UnsupportedFormat
      ensures r.Ok? ==> fresh(r.value) && r.value.Valid() && r.value.mediaType == Classify(path).value
      ensures r.Ok? && r.value.mediaType == Video ==>
        fresh(r.value.clip) && r.value.clip.outcomes == decodeFrames(path) && r.value.clip.position == 0
      ensures r.Ok? && r.value.mediaType == Audio ==> r.value.spectrogram == Some(decodeSpectrogram(path))
    {
      match Classify(path)
      case Err(e) =>
        r := Err(e);
      case Ok(kind) =>
        var fingerprint := new ContentFingerprint(kind, path, decodeFrames, decodeSpectrogram);
        r := Ok(fingerprint);
    }

    /** `_generate_audio_fingerprints`: exactly the cells of the spectrogram that rise above the
        floor and equal the maximum of their 20x20 neighbourhood, in row-major order. */
    function AudioFingerprints(minPeakHeight: int := MinPeakHeight): (peaks: seq<Peak>)
      requires Valid() && mediaType == Audio
      ensures var m := spectrogram.value;
        forall k :: 0 <= k < |peaks| ==>
          peaks[k].frequency < |m| && peaks[k].time < Width(m)
          && m[peaks[k].frequency][peaks[k].time] > minPeakHeight
          && m[peaks[k].frequency][peaks[k].time] == MaxFilterAt(m, peaks[k].frequency, peaks[k].time, NeighbourhoodSize)
      ensures var m := spectrogram.value;
        forall f, t :: 0 <= f < |m| && 0 <= t < Width(m) && IsPeak(m, f, t, minPeakHeight, NeighbourhoodSize) ==> Peak(t, f) in peaks
      ensures forall k1, k2 :: 0 <= k1 < k2 < |peaks| ==> RowMajorBefore(peaks[k1], peaks[k2])
    {
      Peaks(spectrogram.value, minPeakHeight, NeighbourhoodSize)
    }

    /** `_extract_keyframes`: read frames until a read fails. The frames come back in read order,
        and the reader has consumed them and the failed read. */
    method ExtractKeyframes() returns (frames: seq<Grid>)
      requires Valid() && mediaType == Video
      modifies clip
      ensures frames == TakeUntilFailure(old(clip.Pending()))
      ensures clip.position == old(clip.position) + |frames| + 1
    {
      var reader := clip;
      ghost var outcomes := reader.outcomes;
      ghost var taken := TakeUntilFailure(Rest(outcomes, reader.position));
      frames := [];
      ReadAdvance(outcomes, reader.position, taken, []);
      var success, image := reader.ReadFrame();
      while success
        invariant reader.position == old(reader.position) + |frames| + 1
        invariant success ==> reader.position <= |outcomes|
        invariant success ==> taken == frames + [image] + TakeUntilFailure(Rest(outcomes, reader.position))
        invariant !success ==> taken == frames
        decreases |outcomes| - reader.position
      {
        frames := frames + [image];
        ReadAdvance(outcomes, reader.position, taken, frames);
        success, image := reader.ReadFrame();
      }
    }

    /** `_generate_video_fingerprints`: one average hash per extracted frame, in frame order. */
    method GenerateVideoFingerprints() returns (fingerprints: seq<string>)
      requires Valid() && mediaType == Video
      modifies clip
      ensures fingerprints == VideoFingerprint(TakeUntilFailure(old(clip.Pending())))
      ensures clip.position == old(clip.position) + |fingerprints| + 1
    {
      var frames := ExtractKeyframes();
      fingerprints := [];
      for i := 0 to |frames|
        invariant |fingerprints| == i
        invariant forall k :: 0 <= k < i ==> fingerprints[k] == AverageHash(frames[k])
      {
        fingerprints := fingerprints + [AverageHash(frames[i])];
      }
    }

    /** `compare`: fingerprint this file by its own modality only and score it against the other
        file's fingerprint of that modality. */
    method Compare(other: OtherFingerprints) returns (r: Result<SimilarityReport>)
      requires Valid()
      modifies clip
      ensures mediaType == Audio ==> r == Score(Audio, AudioFingerprints(), other.audio)
      ensures mediaType == Video ==>
        r == Score(Video, VideoFingerprint(TakeUntilFailure(old(clip.Pending()))), other.video)
      ensures mediaType == Video ==>
        clip.position == old(clip.position) + |TakeUntilFailure(old(clip.Pending()))| + 1
    {
      if mediaType == Audio {
        r := Score(Audio, AudioFingerprints(), other.audio);
      } else {
        var mine := GenerateVideoFingerprints();
        r := Score(Video, mine, other.video);
      }
    }
  }
}
