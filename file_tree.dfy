/**
 * The output directory tree that download_pages.py writes into, as a map from file path to file
 * content. Directories are not stored: a directory exists when some file lies below it.
 *
 * The operating system calls of the script are modelled by what they decide:
 *   - os.path.exists(p)  is Exists(disk, p);
 *   - os.makedirs(os.path.dirname(p), exist_ok=True) followed by open(p, ...) raises OSError
 *     exactly when WriteFails(disk, p); otherwise the write replaces the file at p.
 */
module FileTree {
  import opened Strings

  newtype byte = x: int | 0 <= x < 256

  /** A page is written in text mode ('w'), a resource in binary mode ('wb'). */
  datatype Content = TextFile(text: string) | BinaryFile(bytes: seq<byte>)

  type Disk = map<string, Content>

  /** The prefix every path below directory p starts with. */
  function DirPrefix(p: string): string {
    if EndsWith(p, "/") then p else p + "/"
  }

  /** p names a directory: some file lies below it. */
  predicate IsDir(disk: Disk, p: string) {
    exists k :: k in disk && StartsWith(k, DirPrefix(p))
  }

  /** Some file of the tree is a proper ancestor of p, so p cannot be created. */
  predicate UnderFile(disk: Disk, p: string) {
    exists k :: k in disk && StartsWith(p, k + "/")
  }

  /**
   * os.path.exists(p): p is a file or a directory. The empty path never exists.
   */
  predicate Exists(disk: Disk, p: string) {
    p != "" && (p in disk || IsDir(disk, p))
  }

  /**
   * Creating the parent directories of p and opening p for writing raises OSError: p ends with
   * '/' (it names a directory), p has no '/' (its dirname is empty and makedirs('') fails), p is
   * an existing directory, or a file stands where one of its directories should be.
   */
  predicate WriteFails(disk: Disk, p: string) {
    EndsWith(p, "/") || '/' !in p || IsDir(disk, p) || UnderFile(disk, p)
  }

  /**
   * A tree the writes can build: no file path is empty or ends with '/', and no file lies below
   * another file.
   */
  ghost predicate WellFormed(disk: Disk) {
    && (forall k :: k in disk ==> k != "" && !EndsWith(k, "/"))
    && (forall k, k' :: k in disk && k' in disk ==> !StartsWith(k', k + "/"))
  }

  /** A write that does not fail keeps the tree well formed, and then the written path is a file. */
  lemma WriteKeepsWellFormed(disk: Disk, p: string, c: Content)
    requires WellFormed(disk) && !WriteFails(disk, p)
    ensures WellFormed(disk[p := c])
    ensures Exists(disk[p := c], p) && !IsDir(disk[p := c], p)
  {
    var d := disk[p := c];
    forall k, k' | k in d && k' in d
      ensures !StartsWith(k', k + "/")
    {
      if k == p && k' != p {
        assert !StartsWith(k', DirPrefix(p));
      } else if k' == p && k != p {
        assert !StartsWith(p, k + "/");
      } else if k == p && k' == p {
        assert |p + "/"| > |p|;
      }
    }
  }

  /**
   * In a well-formed tree an existing file is neither a directory nor below another file, so
   * overwriting it fails only when its path has no '/'.
   */
  lemma RewriteExistingFile(disk: Disk, p: string)
    requires WellFormed(disk) && p in disk
    ensures !IsDir(disk, p) && !UnderFile(disk, p)
    ensures WriteFails(disk, p) <==> '/' !in p
  {
  }
}
