/** How the client-side type check of FileUpload.js relates to the server's
    `allowed_file` in backend/app.py: both look at the lower-cased text after the
    last dot, with the same five extensions, but only the server insists on a dot. */
module UploadRules {
  import opened Text
  import App
  import FileUpload

  /** A dot in front of `x` is a client type exactly when `x` is a server extension. */
  lemma ClientTypeIffServerExtension(x: string)
    ensures "." + x in FileUpload.AllowedTypes <==> x in App.AllowedExtensions
  {
    var d := "." + x;
    if d in FileUpload.AllowedTypes {
      assert d[1..] == x;
      assert x in {"exe", "zip", "txt", "bin", "dll"};
    }
    if x in App.AllowedExtensions {
      if x == "exe" { assert d == ".exe"; }
      else if x == "zip" { assert d == ".zip"; }
      else if x == "txt" { assert d == ".txt"; }
      else if x == "bin" { assert d == ".bin"; }
      else { assert d == ".dll"; }
    }
  }

  /** The server's rule, read from its last dot. */
  lemma AllowedFileByLastDot(name: string)
    ensures App.AllowedFile(name) <==> '.' in name && Lower(AfterLastDot(name)) in App.AllowedExtensions
  {
  }

  /** Every name the server accepts passes the client's type check, and a name that
      contains a dot passes the client's type check only if the server accepts it. */
  lemma ClientAgreesOnDottedNames(name: string)
    ensures App.AllowedFile(name) ==> FileUpload.FileExtension(name) in FileUpload.AllowedTypes
    ensures '.' in name && FileUpload.FileExtension(name) in FileUpload.AllowedTypes ==> App.AllowedFile(name)
  {
    AllowedFileByLastDot(name);
    ClientTypeIffServerExtension(Lower(AfterLastDot(name)));
  }

  /** A dot-less name passes the client's type check exactly when the whole name,
      lower-cased, is a server extension; so a file named `EXE` passes. */
  lemma DotlessNameChecksWholeName(name: string)
    requires '.' !in name
    ensures FileUpload.FileExtension(name) in FileUpload.AllowedTypes <==> Lower(name) in App.AllowedExtensions
    ensures name == "EXE" ==> FileUpload.FileExtension(name) in FileUpload.AllowedTypes
  {
    ClientTypeIffServerExtension(Lower(name));
    if name == "EXE" {
      var low := Lower(name);
      assert low[0] == 'e' && low[1] == 'x' && low[2] == 'e';
      assert low == "exe";
    }
  }

  /** The two rules differ on dot-less names: a file named `exe` passes the client's
      check and is refused by the server. */
  lemma DotlessNameDiverges()
    ensures FileUpload.FileExtension("exe") in FileUpload.AllowedTypes
    ensures !App.AllowedFile("exe")
  {
    assert '.' !in "exe" by {
      assert "exe"[0] != '.' && "exe"[1] != '.' && "exe"[2] != '.';
    }
    assert Lower("exe") == "exe";
    assert FileUpload.FileExtension("exe") == ".exe";
    AllowedFileByLastDot("exe");
  }
}
