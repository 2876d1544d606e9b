/** The upload filter `allowed_file`, shared by the local and the cloud upload routes. */
module Upload {
  import opened Wrappers
  import opened Text

  /** ALLOWED_EXTENSIONS */
  const Extensions: set<string> := {"png", "jpg", "jpeg"}

  /** Position of the last '.' in `s`, where `rsplit('.', 1)` cuts; None when there is no '.'. */
  function LastDot(s: string): (r: Option<nat>)
    ensures r.Some? ==> r.value < |s| && s[r.value] == '.'
    ensures r.Some? ==> forall j :: r.value < j < |s| ==> s[j] != '.'
    ensures r.None? ==> forall j :: 0 <= j < |s| ==> s[j] != '.'
  {
    if s == [] then None
    else if s[|s| - 1] == '.' then Some(|s| - 1)
    else LastDot(s[..|s| - 1])
  }

  /** `allowed_file(filename)`: the name holds a '.' and the lower-cased text
      after the last '.' is an allowed extension. */
  predicate AllowedFile(filename: string)
  {
    match LastDot(filename)
    case None => false
    case Some(k) => Lower(filename[k + 1..]) in Extensions
  }

  /** `k` is the position of the last '.' in `f`. */
  ghost predicate IsLastDot(f: string, k: int)
  {
    0 <= k < |f| && f[k] == '.' && forall j :: k < j < |f| ==> f[j] != '.'
  }

  /** The filter accepts exactly the names with a last '.' followed by
      png, jpg or jpeg in any letter case. */
  lemma AllowedFileSpec(f: string)
    ensures AllowedFile(f) <==> exists k :: IsLastDot(f, k) && Lower(f[k + 1..]) in Extensions
  {
    if k :| IsLastDot(f, k) && Lower(f[k + 1..]) in Extensions {
      var d := LastDot(f);
      if d.None? {
        assert f[k] == '.';
      } else if d.value < k {
        assert f[k] == '.';
      }
    }
    if AllowedFile(f) {
      assert IsLastDot(f, LastDot(f).value);
    }
  }

  /** The last '.' is where `LastDot` finds it. */
  lemma {:induction false} LastDotFinds(f: string, k: int)
    requires IsLastDot(f, k)
    ensures LastDot(f) == Some(k)
  {
    if k < |f| - 1 {
      var g := f[..|f| - 1];
      assert g[k] == f[k];
      assert forall j :: k < j < |g| ==> g[j] == f[j];
      LastDotFinds(g, k);
    }
  }

  /** Examples of the filter: an upper-case extension passes and only the last '.' counts. */
  lemma AcceptedExamples()
    ensures AllowedFile("photo.JPG")
    ensures AllowedFile(".png")
    ensures AllowedFile("archive.tar.jpeg")
  {
    LastDotFinds("photo.JPG", 5);
    assert "photo.JPG"[6..] == "JPG" && Lower("JPG") == "jpg";
    LastDotFinds(".png", 0);
    assert ".png"[1..] == "png" && Lower("png") == "png";
    LastDotFinds("archive.tar.jpeg", 11);
    assert "archive.tar.jpeg"[12..] == "jpeg" && Lower("jpeg") == "jpeg";
  }

  /** Examples of the filter: no '.', a foreign extension, an allowed extension
      that is not the last one, and an empty extension are all refused. */
  lemma RejectedExamples()
    ensures !AllowedFile("noext")
    ensures !AllowedFile("malware.exe")
    ensures !AllowedFile("photo.png.exe")
    ensures !AllowedFile("photo.")
  {
    assert LastDot("noext") == None by {
      assert forall j :: 0 <= j < |"noext"| ==> "noext"[j] != '.';
    }
    LastDotFinds("malware.exe", 7);
    assert "malware.exe"[8..] == "exe" && Lower("exe") == "exe";
    LastDotFinds("photo.png.exe", 9);
    assert "photo.png.exe"[10..] == "exe";
    LastDotFinds("photo.", 5);
    assert "photo."[6..] == "" && Lower("") == "";
  }
}
