/**
 * The upload checks of the web front end (app.py): which file names are
 * accepted, and the name under which the converted recording is stored.
 */
module App {
  import opened PyStrings
  import opened PosixPath

  /** `app.config['ALLOWED_EXTENSIONS']`. */
  const AllowedExtensions: set<string> := {"wav", "mp3", "flac"}

  /** `allowed_file`: the text after the last `.`, lower-cased, is one of the
      allowed extensions. */
  function AllowedFile(filename: string): (ok: bool)
    ensures ok ==> '.' in filename
  {
    '.' in filename && Lower(RSplitOnce(filename, '.')[1]) in AllowedExtensions
  }

  /** Only the extension after the LAST dot decides: `stem.ext` is accepted
      exactly when `ext`, lower-cased, is allowed, whatever dots `stem` has. */
  lemma AllowedFileLastExtension(stem: string, ext: string)
    requires '.' !in ext
    ensures AllowedFile(stem + "." + ext) <==> Lower(ext) in AllowedExtensions
  {
    var s := stem + "." + ext;
    assert s[|stem|] == '.';
    var parts := RSplitOnce(s, '.');
    assert |parts| == 2;
    var i := RFind(s, '.');
    assert i >= |stem|;
    assert parts[1] == s[|stem| + 1..] == ext;
  }

  /** A name without a dot is rejected. */
  lemma NoDotRejected(filename: string)
    requires '.' !in filename
    ensures !AllowedFile(filename)
  {
  }

  /** Upper and lower case are the same to the check. */
  lemma AllowedFileCaseInsensitive(filename: string)
    ensures AllowedFile(Lower(filename)) == AllowedFile(filename)
  {
    var low := Lower(filename);
    RFindPresent(filename, '.');
    RFindPresent(low, '.');
    RFindLower(filename, '.');
    var i := RFind(filename, '.');
    if i >= 0 {
      assert low[i + 1..] == Lower(filename[i + 1..]);
      LowerIdempotent(filename[i + 1..]);
    }
  }

  /** `a.tar.wav` is accepted: only the text after the last dot counts. */
  lemma InnerDotIgnored()
    ensures AllowedFile("a.tar.wav")
  {
    assert "a.tar" + "." + "wav" == "a.tar.wav";
    assert Lower("wav") == "wav";
    AllowedFileLastExtension("a.tar", "wav");
  }

  /** `a.wav.txt` is rejected: an allowed extension before the last dot does
      not count. */
  lemma EarlierExtensionIgnored()
    ensures !AllowedFile("a.wav.txt")
  {
    assert "a.wav" + "." + "txt" == "a.wav.txt";
    assert Lower("txt") == "txt";
    AllowedFileLastExtension("a.wav", "txt");
  }

  /** `X.WAV` is accepted: case does not matter. */
  lemma UpperCaseAccepted()
    ensures AllowedFile("X.WAV")
  {
    assert "X" + "." + "WAV" == "X.WAV";
    assert Lower("WAV") == "wav";
    AllowedFileLastExtension("X", "WAV");
  }

  /** `x.Flac` is accepted: case does not matter. */
  lemma MixedCaseAccepted()
    ensures AllowedFile("x.Flac")
  {
    assert "x" + "." + "Flac" == "x.Flac";
    assert Lower("Flac") == "flac";
    AllowedFileLastExtension("x", "Flac");
  }

  /** A trailing dot leaves an empty extension, which is rejected. */
  lemma TrailingDotRejected(stem: string)
    ensures !AllowedFile(stem + ".")
  {
    AllowedFileLastExtension(stem, "");
    assert stem + "." + "" == stem + ".";
    assert Lower("") == "";
  }

  /** `flac_filename`: the splitext root of the upload, then `.flac`. */
  function FlacFilename(filename: string): (r: string)
    ensures EndsWith(r, ".flac")
    ensures r[..|r| - 5] + SplitExt(filename).1 == filename
  {
    SplitExt(filename).0 + ".flac"
  }

  /** `song.mp3` becomes `song.flac`, `a.tar.wav` becomes `a.tar.flac`,
      `a..wav` becomes `a..flac`. */
  lemma FlacFilenameReplacesExtension(stem: string, ext: string)
    requires '.' !in ext && '/' !in ext
    requires HasNonDot(stem, RFind(stem, '/') + 1, |stem|)
    ensures FlacFilename(stem + "." + ext) == stem + ".flac"
  {
    SplitExtOfName(stem, ext);
  }

  /** A name without an extension keeps its whole text: `take` becomes
      `take.flac`. */
  lemma FlacFilenameNoDot(filename: string)
    requires '.' !in filename
    ensures FlacFilename(filename) == filename + ".flac"
  {
    SplitExtNoDot(filename);
  }
}
