/**
 * `allowed_file` of app.py: an uploaded file is accepted when its name
 * contains a '.' and the text after the LAST '.', lower-cased, is one of
 * the extensions in `ALLOWED_EXTENSIONS`.
 */
module Upload {
  import opened Wrappers
  import opened Text

  const AllowedExtensions: set<string> := {"pdf", "doc", "docx"}

  /**
   * `filename.rsplit('.', 1)[1]`: the text after the last '.', or None when
   * there is no '.' at all (where `rsplit` yields a single piece).
   */
  function Extension(filename: string): (ext: Option<string>)
    ensures ext.None? <==> '.' !in filename
    ensures ext.Some? ==>
      && '.' !in ext.value
      && |ext.value| < |filename|
      && filename == filename[..|filename| - |ext.value| - 1] + "." + ext.value
  {
    if filename == [] then None
    else
      var last := filename[|filename| - 1];
      if last == '.' then Some([])
      else match Extension(filename[..|filename| - 1])
        case None => None
        case Some(e) => Some(e + [last])
  }

  predicate EndsWith(s: string, suffix: string) {
    |suffix| <= |s| && s[|s| - |suffix|..] == suffix
  }

  /** The lower-cased name ends in one of the allowed extensions, dot included. */
  predicate HasAllowedSuffix(s: string) {
    EndsWith(s, ".pdf") || EndsWith(s, ".doc") || EndsWith(s, ".docx")
  }

  /**
   * `allowed_file(filename)`: a name is accepted exactly when, lower-cased,
   * it ends in `.pdf`, `.doc` or `.docx`.
   */
  predicate AllowedFile(filename: string)
    ensures AllowedFile(filename) <==> HasAllowedSuffix(Lower(filename))
  {
    LastDotDecidesSuffix(filename);
    '.' in filename && Lower(Extension(filename).value) in AllowedExtensions
  }

  /** A name without a '.' is always rejected. */
  lemma NoDotRejected(filename: string)
    requires '.' !in filename
    ensures !AllowedFile(filename)
  {
  }

  /** Appending one character: a '.' starts an empty extension, anything else extends the current one. */
  lemma ExtensionSnoc(init: string, c: char)
    ensures Extension(init + [c]) ==
      if c == '.' then Some([])
      else match Extension(init)
        case None => None
        case Some(e) => Some(e + [c])
  {
    assert (init + [c])[..|init|] == init;
  }

  /** The extension of `stem + "." + ext` is `ext` whenever `ext` holds no '.', whatever `stem` holds. */
  lemma {:induction false} ExtensionOfSplit(stem: string, ext: string)
    requires '.' !in ext
    ensures Extension(stem + "." + ext) == Some(ext)
    decreases |ext|
  {
    if ext == [] {
      assert stem + "." + ext == stem + ['.'];
      ExtensionSnoc(stem, '.');
    } else {
      var init, last := ext[..|ext| - 1], ext[|ext| - 1];
      assert ext == init + [last];
      ExtensionOfSplit(stem, init);
      ExtensionSnoc(stem + "." + init, last);
      assert stem + "." + ext == (stem + "." + init) + [last];
    }
  }

  /** A name ending in `"." + x` has a dot. */
  lemma EndsWithDot(w: string, x: string)
    requires EndsWith(w, "." + x)
    ensures '.' in w
  {
    assert w[|w| - |x| - 1] == '.';
  }

  /** With `v` and `x` free of dots, `u + "." + v` ends in `"." + x` exactly when `v` is `x`. */
  lemma SuffixDecides(u: string, v: string, x: string)
    requires '.' !in v && '.' !in x
    ensures EndsWith(u + "." + v, "." + x) <==> v == x
  {
    var w := u + "." + v;
    if v == x {
      assert w[|w| - |x| - 1..] == "." + x;
    }
    if EndsWith(w, "." + x) {
      var stem := w[..|w| - |x| - 1];
      assert w == stem + "." + x by {
        assert w == stem + w[|w| - |x| - 1..];
        AppendAssoc(stem, ".", x);
      }
      ExtensionOfSplit(stem, x);
      ExtensionOfSplit(u, v);
    }
  }

  /** The last-dot test of `allowed_file` is the same as a test on the suffix of the lower-cased name. */
  lemma LastDotDecidesSuffix(filename: string)
    ensures ('.' in filename && Lower(Extension(filename).value) in AllowedExtensions)
      <==> HasAllowedSuffix(Lower(filename))
  {
    if '.' in filename {
      var ext := Extension(filename).value;
      LastDotDecidesSuffixAt(filename[..|filename| - |ext| - 1], ext);
    } else {
      NoDotNoSuffix(filename);
    }
  }

  /** Without a dot, the lower-cased name cannot end in an allowed suffix. */
  lemma NoDotNoSuffix(filename: string)
    requires '.' !in filename
    ensures !HasAllowedSuffix(Lower(filename))
  {
    var name := Lower(filename);
    LowerHasDot(filename);
    assert ".pdf" == "." + "pdf" && ".doc" == "." + "doc" && ".docx" == "." + "docx";
    if EndsWith(name, ".pdf") { EndsWithDot(name, "pdf"); }
    if EndsWith(name, ".doc") { EndsWithDot(name, "doc"); }
    if EndsWith(name, ".docx") { EndsWithDot(name, "docx"); }
  }

  lemma LastDotDecidesSuffixAt(stem: string, ext: string)
    requires '.' !in ext
    ensures Lower(ext) in AllowedExtensions <==> HasAllowedSuffix(Lower(stem + "." + ext))
  {
    var u, v := Lower(stem), Lower(ext);
    var name := Lower(stem + "." + ext);
    LowerAroundDot(stem, ext);
    LowerHasDot(ext);
    assert ".pdf" == "." + "pdf" && ".doc" == "." + "doc" && ".docx" == "." + "docx";
    SuffixDecides(u, v, "pdf");
    SuffixDecides(u, v, "doc");
    SuffixDecides(u, v, "docx");
    assert HasAllowedSuffix(name) <==> v == "pdf" || v == "doc" || v == "docx";
  }

  lemma LowerAroundDot(stem: string, ext: string)
    ensures Lower(stem + "." + ext) == Lower(stem) + "." + Lower(ext)
  {
    LowerAppend(stem + ".", ext);
    LowerAppend(stem, ".");
    assert Lower(".") == ".";
  }

  /**
   * Only the text after the last '.' decides, and it is compared without
   * regard to case: `a.tar.PDF` and `.pdf` pass, `a.pdf.exe` and `report.` do not.
   */
  lemma AllowedFileIffExtension(stem: string, ext: string)
    requires '.' !in ext
    ensures AllowedFile(stem + "." + ext) <==> Lower(ext) in AllowedExtensions
  {
    ExtensionOfSplit(stem, ext);
    assert '.' in stem + "." + ext by {
      assert (stem + "." + ext)[|stem|] == '.';
    }
  }

  /** Every name with a '.' has that shape, so the two lemmas above decide every name. */
  lemma HasDotSplits(filename: string)
    requires '.' in filename
    ensures exists stem, ext :: '.' !in ext && filename == stem + "." + ext
  {
    var ext := Extension(filename).value;
    var stem := filename[..|filename| - |ext| - 1];
    assert filename == stem + "." + ext;
  }

  lemma LowerHasDot(s: string)
    ensures ('.' in Lower(s)) == ('.' in s)
  {
    if '.' in s {
      var i :| 0 <= i < |s| && s[i] == '.';
      assert Lower(s)[i] == '.';
    }
    if '.' in Lower(s) {
      var i :| 0 <= i < |s| && Lower(s)[i] == '.';
      assert s[i] == '.';
    }
  }

  /** Lower-casing the whole name never changes the verdict. */
  lemma AllowedFileIgnoresCase(filename: string)
    ensures AllowedFile(Lower(filename)) == AllowedFile(filename)
  {
    LowerHasDot(filename);
    if '.' in filename {
      var ext := Extension(filename).value;
      var stem := filename[..|filename| - |ext| - 1];
      LowerAppend(stem + ".", ext);
      LowerAppend(stem, ".");
      assert Lower(".") == ".";
      LowerHasDot(ext);
      AllowedFileIffExtension(stem, ext);
      AllowedFileIffExtension(Lower(stem), Lower(ext));
      LowerIdempotent(ext);
    }
  }

  /** Several dots and upper case: only the text after the last dot decides, case-insensitively. */
  lemma SeveralDotsExample()
    ensures AllowedFile("a.tar.PDF")
  {
    assert "a.tar.PDF" == "a.tar" + "." + "PDF";
    assert Lower("PDF") == "pdf";
    AllowedFileIffExtension("a.tar", "PDF");
  }

  /** A name that is only a dot and an extension is accepted. */
  lemma LeadingDotExample()
    ensures AllowedFile(".pdf")
  {
    assert ".pdf" == "" + "." + "pdf";
    assert Lower("pdf") == "pdf";
    AllowedFileIffExtension("", "pdf");
  }

  /** An allowed extension followed by another one: rejected. */
  lemma ExtraExtensionExample()
    ensures !AllowedFile("a.pdf.exe")
  {
    assert "a.pdf.exe" == "a.pdf" + "." + "exe";
    assert Lower("exe") == "exe";
    AllowedFileIffExtension("a.pdf", "exe");
  }

  /** A trailing dot leaves an empty extension, and no dot leaves none: both rejected. */
  lemma TrailingOrNoDotExample()
    ensures !AllowedFile("report.")
    ensures !AllowedFile("pdf")
  {
    assert "report." == "report" + "." + "";
    AllowedFileIffExtension("report", "");
    NoDotRejected("pdf");
  }
}
