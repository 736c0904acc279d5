/** Classification of an input path into a media type by its file extension. */
module MediaKind {
  import opened Outcome

  datatype MediaType = Audio | Video

  /** The container extensions read as video, in the order they are tried. */
  const VideoExtensions: seq<string> := [".mp4", ".avi", ".mkv", ".mov"]

  /** The container extensions read as audio, in the order they are tried. */
  const AudioExtensions: seq<string> := [".mp3", ".wav", ".flac", ".aac"]

  /** Python's `str.endswith` for one suffix: a case-sensitive comparison of the last characters,
      character by character. */
  predicate EndsWith(s: string, suffix: string)
    ensures EndsWith(s, suffix) <==>
      |suffix| <= |s| && forall i :: 0 <= i < |suffix| ==> s[|s| - |suffix| + i] == suffix[i]
  {
    |suffix| <= |s| && s[|s| - |suffix|..] == suffix
  }

  /** Python's `str.endswith` given a tuple of suffixes, tried in order: true exactly when some
      suffix of the tuple ends `s`. */
  predicate EndsWithAny(s: string, suffixes: seq<string>)
    ensures EndsWithAny(s, suffixes) <==> exists k :: 0 <= k < |suffixes| && EndsWith(s, suffixes[k])
  {
    if |suffixes| == 0 then false
    else EndsWith(s, suffixes[0]) || EndsWithAny(s, suffixes[1..])
  }

  /** When `b` is a suffix of `s`, a shorter `a` is a suffix of `s` exactly when it is one of `b`. */
  lemma SuffixOfSuffix(s: string, a: string, b: string)
    requires EndsWith(s, b) && |a| <= |b|
    ensures EndsWith(s, a) <==> EndsWith(b, a)
  {
    assert b[|b| - |a|..] == s[|s| - |a|..];
  }

  /** When `b` is a suffix of `s`, a longer `a` can only be a suffix of `s` if `b` is one of `a`. */
  lemma LongerSuffix(s: string, a: string, b: string)
    requires EndsWith(s, b) && |b| <= |a|
    ensures EndsWith(s, a) ==> EndsWith(a, b)
  {
    if EndsWith(s, a) {
      SuffixOfSuffix(s, b, a);
    }
  }

  /** No video extension is a suffix of an audio extension. */
  lemma NoVideoExtensionEndsAnAudioExtension(v: nat, a: nat)
    requires v < |VideoExtensions| && a < |AudioExtensions|
    ensures |VideoExtensions[v]| <= |AudioExtensions[a]|
    ensures !EndsWith(AudioExtensions[a], VideoExtensions[v])
  {
    var x, y := VideoExtensions[v], AudioExtensions[a];
    assert |x| == 4 && x[0] == '.';
    if a == 0 {
      assert y == ".mp3";
    } else if a == 1 {
      assert y == ".wav";
    } else if a == 2 {
      assert y[|y| - 4..] == "flac";
    } else {
      assert y == ".aac";
    }
  }

  /** A path never ends both in a video and in an audio extension, so the order of the two tests
      does not decide anything. */
  lemma ExtensionsDisjoint(path: string)
    ensures EndsWithAny(path, AudioExtensions) ==> !EndsWithAny(path, VideoExtensions)
  {
    forall v, a | 0 <= v < |VideoExtensions| && 0 <= a < |AudioExtensions| && EndsWith(path, AudioExtensions[a])
      ensures !EndsWith(path, VideoExtensions[v])
    {
      NoVideoExtensionEndsAnAudioExtension(v, a);
      SuffixOfSuffix(path, VideoExtensions[v], AudioExtensions[a]);
    }
  }

  /** The media type of the file at `path`, decided from its name alone, before anything is decoded. */
  function Classify(path: string): (r: Result<MediaType>)
    ensures r == Ok(Video) <==> EndsWithAny(path, VideoExtensions)
    ensures r == Ok(Audio) <==> EndsWithAny(path, AudioExtensions)
    ensures r.Err? <==> !EndsWithAny(path, VideoExtensions) && !EndsWithAny(path, AudioExtensions)
    ensures r.Err? ==> r.error == UnsupportedFormat
  {
    ExtensionsDisjoint(path);
    if EndsWithAny(path, VideoExtensions) then Ok(Video)
    else if EndsWithAny(path, AudioExtensions) then Ok(Audio)
    else Err(UnsupportedFormat)
  }

  /** A path ending in a four-character extension that is none of the recognised ones is
      rejected: no five-character extension ends in it either. */
  lemma UnrecognisedExtensionRejected(path: string, ext: string)
    requires EndsWith(path, ext) && |ext| == 4
    requires ext !in VideoExtensions && ext !in AudioExtensions && ext != "flac"
    ensures Classify(path) == Err(UnsupportedFormat)
  {
    forall k | 0 <= k < |VideoExtensions| ensures !EndsWith(path, VideoExtensions[k]) {
      SuffixOfSuffix(path, VideoExtensions[k], ext);
    }
    forall k | 0 <= k < |AudioExtensions| ensures !EndsWith(path, AudioExtensions[k]) {
      if |AudioExtensions[k]| == 4 {
        SuffixOfSuffix(path, AudioExtensions[k], ext);
      } else {
        LongerSuffix(path, AudioExtensions[k], ext);
      }
    }
  }

  /** The match is case-sensitive, so ".MP4" is rejected, and so is ".txt". */
  lemma UpperCaseAndTextRejected(video: string, text: string)
    requires EndsWith(video, ".MP4") && EndsWith(text, ".txt")
    ensures Classify(video) == Err(UnsupportedFormat)
    ensures Classify(text) == Err(UnsupportedFormat)
  {
    UnrecognisedExtensionRejected(video, ".MP4");
    UnrecognisedExtensionRejected(text, ".txt");
  }
}
