/**
  * What the backend's split functions hand to PyPDF2 and the file system, reduced to values:
  * a written PDF is the list of pages added to its writer, in order, and whether the writer was
  * encrypted; an output path is built with `os.path.join` under the `output` folder.
  */
module PdfOutput {
  import opened Optional

  /** The document a `PdfWriter` writes: its pages in the order `add_page` received them, and
      whether `encrypt` was called on it. Pages are opaque. */
  datatype PdfDocument<Page> = PdfDocument(pages: seq<Page>, encrypted: bool)

  /** Python truthiness of the `password` argument: not `None` and not empty. */
  predicate Encrypts(password: Option<string>)
  {
    password.Some? && password.value != ""
  }

  /** Only `None` and the empty string are falsy: every other password encrypts, even one made of
      white space. */
  lemma EncryptsTruthyPassword(password: Option<string>)
    ensures Encrypts(password) <==> password != None && password != Some("")
    ensures Encrypts(Some(" "))
  {
  }

  const OutputDir: string := "output"

  /** `os.path.join(dir, name)` with POSIX separators: an absolute `name` replaces `dir`,
      otherwise a single `/` joins the two. */
  function JoinPath(dir: string, name: string): (p: string)
    ensures name != [] && name[0] == '/' ==> p == name
    ensures (name == [] || name[0] != '/') && dir != [] && dir[|dir| - 1] != '/' ==> p == dir + "/" + name
    ensures (name == [] || name[0] != '/') && (dir == [] || dir[|dir| - 1] == '/') ==> p == dir + name
  {
    if name != [] && name[0] == '/' then name
    else if dir == [] || dir[|dir| - 1] == '/' then dir + name
    else dir + "/" + name
  }

  /** Joining under the output folder loses nothing: different names give different paths. */
  lemma JoinPathDistinct(a: string, b: string)
    requires a != b
    ensures JoinPath(OutputDir, a) != JoinPath(OutputDir, b)
  {
    var pa, pb := JoinPath(OutputDir, a), JoinPath(OutputDir, b);
    var absA, absB := a != [] && a[0] == '/', b != [] && b[0] == '/';
    if !absA && !absB {
      assert pa[|OutputDir| + 1..] == a && pb[|OutputDir| + 1..] == b;
    } else if !absA {
      assert pa[0] == 'o' && pb[0] == '/';
    } else if !absB {
      assert pa[0] == '/' && pb[0] == 'o';
    }
  }
}
