/** The `ImageForensicsTool` object stripped of its widgets: the path of the
    uploaded image, set by `upload_image`, and the five handlers, each of
    which refuses to run until an image is loaded. What a handler shows in a
    message box is its result. File contents, decoded images and the EXIF
    parser's output are passed in: they stand for what the handler would
    read from the file at the loaded path. */
module Forensics {
  import opened Common
  import Signature
  import Hashing
  import Ela
  import Stego
  import Exif

  /** A message box: a warning or an information box with a title and a
      text, or the hash box with its title and the digest state, whose
      hexadecimal text is not modelled. */
  datatype Dialog =
    | Warning(title: string, text: string)
    | Info(title: string, text: string)
    | HashInfo(title: string, digest: Hashing.Sha1State)

  /** What every handler shows when no image is loaded. */
  const UploadFirst: Dialog := Warning("Warning", "Please upload an image first.")

  class ForensicsTool {
    /** `self.image_path`: `None` until the first upload, then whatever the
        file dialog returned (the empty string when it was cancelled). */
    var imagePath: Option<string>

    constructor ()
      ensures imagePath == None
      ensures !Loaded()
    {
      imagePath := None;
    }

    /** The guard `if self.image_path:` — a path that is set and non-empty. */
    predicate Loaded()
      reads this
      ensures Loaded() ==> imagePath.Some? && |imagePath.value| > 0
      ensures imagePath == None || imagePath == Some("") ==> !Loaded()
    {
      imagePath.Some? && imagePath.value != ""
    }

    /** `upload_image`: the dialog's answer replaces the path, even when it
        is empty; a cancelled dialog leaves no image loaded. */
    method UploadImage(chosen: string)
      modifies this
      ensures imagePath == Some(chosen)
      ensures Loaded() <==> chosen != ""
    {
      imagePath := Some(chosen);
    }

    /** `calculate_hash`: the SHA-1 of the whole file, read in chunks. */
    method CalculateHash(content: seq<byte>) returns (shown: Dialog)
      ensures !Loaded() ==> shown == UploadFirst
      ensures Loaded() ==> shown == HashInfo("Hash (SHA-1)", Hashing.Sha1Update(Hashing.Sha1New(), content))
    {
      if Loaded() {
        var digest;
        ghost var chunks;
        digest, chunks := Hashing.HashImage(content);
        shown := HashInfo("Hash (SHA-1)", digest);
      } else {
        shown := UploadFirst;
      }
    }

    /** `check_steganography` on the image's samples. */
    method CheckSteganography(samples: seq<int>) returns (shown: Dialog)
      ensures !Loaded() ==> shown == UploadFirst
      ensures Loaded() ==> shown == Info("Steganography Check",
        if |samples| > 0 && Stego.Mean(samples) > Stego.MeanThreshold as real
        then "Steganography detected!" else "No steganography detected.")
    {
      if Loaded() {
        var flagged := Stego.DetectSteganography(samples);
        shown := Info("Steganography Check", Stego.StegoMessage(flagged));
      } else {
        shown := UploadFirst;
      }
    }

    /** `check_signature`: the verdict on the loaded path and the file's
        bytes; an unknown format is shown as a warning, the other verdicts
        as information. */
    method CheckSignature(content: seq<byte>) returns (shown: Dialog)
      ensures !Loaded() ==> shown == UploadFirst
      ensures Loaded() ==>
        var v := Signature.CheckSignature(imagePath.value, content);
        shown == (if v.UnknownFormat? then Warning("Signature Check", Signature.VerdictMessage(v))
                  else Info("Signature Check", Signature.VerdictMessage(v)))
      ensures Loaded() ==>
        (shown == Info("Signature Check", "Signature is valid.") <==>
          Signature.DetectFileSignature(content).Some? &&
          Signature.Extension(Signature.DetectFileSignature(content).value)
            == Signature.DeclaredExtension(imagePath.value))
    {
      if Loaded() {
        var v := Signature.CheckSignature(imagePath.value, content);
        if v.UnknownFormat? {
          shown := Warning("Signature Check", Signature.VerdictMessage(v));
        } else {
          shown := Info("Signature Check", Signature.VerdictMessage(v));
          Signature.ValidMessageOnlyForValid(v);
        }
      } else {
        shown := UploadFirst;
      }
    }

    /** `perform_ela` on the decoded original and its recompressed copy. */
    method PerformEla(original: Ela.Image, recompressed: Ela.Image,
                      toGray: Ela.Image -> Ela.Grid, normalize: Ela.Grid -> Ela.Grid)
      returns (shown: Dialog)
      ensures !Loaded() ==> shown == UploadFirst
      ensures Loaded() ==> shown == Info("ELA Result",
        Ela.ElaMessage(Ela.ElaAnalysis(original, recompressed, toGray, normalize)))
      ensures Loaded() && Ela.SameShape(original, recompressed) ==>
        shown == Info("ELA Result", "ELA result saved as ela_result.png")
    {
      if Loaded() {
        var outcome := Ela.ElaAnalysis(original, recompressed, toGray, normalize);
        shown := Info("ELA Result", Ela.ElaMessage(outcome));
      } else {
        shown := UploadFirst;
      }
    }

    /** `get_exif_data` on the pairs the EXIF parser returns for the file. */
    method GetExifData(tags: seq<(string, string)>) returns (shown: Dialog)
      ensures !Loaded() ==> shown == UploadFirst
      ensures Loaded() && tags == [] ==> shown == Info("EXIF Data", Exif.NoExif)
      ensures Loaded() && tags != [] ==> shown == Info("EXIF Data", Exif.Lines(tags))
    {
      if Loaded() {
        var report := Exif.ExtractExif(tags);
        shown := Info("EXIF Data", report);
      } else {
        shown := UploadFirst;
      }
    }
  }
}
