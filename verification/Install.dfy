/** bldtools/install.py: the loop over `args`, a list that an argument '-' extends
    with the lines of standard input while the loop is running over it. */
module Install {

  const DASH := "-"

  /** Everything before the last slash goes, unless relative paths are kept. */
  function Basename(f: string): string {
    if f == "" || f[|f| - 1] == '/' then "" else Basename(f[..|f| - 1]) + [f[|f| - 1]]
  }

  /** `os.path.join` */
  function Join(dir: string, file: string): string {
    if file != "" && file[0] == '/' then file
    else if dir == "" || dir[|dir| - 1] == '/' then dir + file
    else dir + "/" + file
  }

  function Target(dst: string, dstIsDir: bool, keepPath: bool, file: string): string {
    if !dstIsDir then dst else Join(dst, if keepPath then file else Basename(file))
  }

  // ---------------------------------------------------------------- specification

  function Files(args: seq<string>): seq<string> {
    if args == [] then [] else Files(args[..|args| - 1]) + if args[|args| - 1] == DASH then [] else [args[|args| - 1]]
  }

  /** The whole list the loop ends up running over: standard input is read once, at the first dash. */
  function Worklist(args: seq<string>, stdin: seq<string>): seq<string> {
    if DASH in args then args + stdin else args
  }

  /** Which source each destination holds after the files are copied in order. */
  function Copied(files: seq<string>, dst: string, dstIsDir: bool, keepPath: bool): map<string, string> {
    if files == [] then map[]
    else
      var f := files[|files| - 1];
      Copied(files[..|files| - 1], dst, dstIsDir, keepPath)[Target(dst, dstIsDir, keepPath, f) := f]
  }

  /** The i-th file goes to `p` and no later one does. */
  predicate LastWriter(files: seq<string>, dst: string, dstIsDir: bool, keepPath: bool, p: string, i: int) {
    && 0 <= i < |files| && Target(dst, dstIsDir, keepPath, files[i]) == p
    && forall j :: i < j < |files| ==> Target(dst, dstIsDir, keepPath, files[j]) != p
  }

  lemma {:induction false} LastWriterWins(files: seq<string>, dst: string, dstIsDir: bool, keepPath: bool, p: string)
    ensures var m := Copied(files, dst, dstIsDir, keepPath);
      && (p in m <==> exists i :: 0 <= i < |files| && Target(dst, dstIsDir, keepPath, files[i]) == p)
      && (p in m ==> exists i :: LastWriter(files, dst, dstIsDir, keepPath, p, i) && m[p] == files[i])
  {
    if files != [] {
      var init, f := files[..|files| - 1], files[|files| - 1];
      LastWriterWins(init, dst, dstIsDir, keepPath, p);
      WriterNext(init, f, dst, dstIsDir, keepPath, p);
      assert init + [f] == files;
    }
  }

  /** Who writes `p` once `f` has been copied as well. */
  lemma WriterNext(init: seq<string>, f: string, dst: string, dstIsDir: bool, keepPath: bool, p: string)
    ensures var files := init + [f];
      && ((exists i :: 0 <= i < |files| && Target(dst, dstIsDir, keepPath, files[i]) == p) <==>
            Target(dst, dstIsDir, keepPath, f) == p || exists i :: 0 <= i < |init| && Target(dst, dstIsDir, keepPath, init[i]) == p)
      && (Target(dst, dstIsDir, keepPath, f) == p ==> LastWriter(files, dst, dstIsDir, keepPath, p, |init|) && files[|init|] == f)
      && (Target(dst, dstIsDir, keepPath, f) != p ==>
            forall i :: LastWriter(init, dst, dstIsDir, keepPath, p, i) ==>
              LastWriter(files, dst, dstIsDir, keepPath, p, i) && files[i] == init[i])
  {
    var files := init + [f];
    assert files[|init|] == f;
    assert forall i :: 0 <= i < |init| ==> files[i] == init[i];
  }

  // ---------------------------------------------------------------- the loop

  /** Terminates although the list grows under it, dashes in standard input included,
      and copies exactly the files of the final list, in order. */
  method InstallAll(args: seq<string>, stdin: seq<string>, dst: string, dstIsDir: bool, keepPath: bool)
    returns (copied: map<string, string>)
    ensures copied == Copied(Files(Worklist(args, stdin)), dst, dstIsDir, keepPath)
  {
    var list, unread := args, stdin;
    copied := map[];
    ghost var consumed := false;
    ghost var done: seq<string> := [];
    var i := 0;
    while i < |list|
      invariant 0 <= i <= |list|
      invariant !consumed ==> list == args && unread == stdin && DASH !in args[..i]
      invariant consumed ==> list == args + stdin && unread == [] && DASH in args
      invariant done == Files(list[..i]) && copied == Copied(done, dst, dstIsDir, keepPath)
      decreases |unread|, |list| - i
    {
      var file := list[i];
      FilesNext(list, i);
      DashNext(list, i);
      if file == DASH {
        Grown(list, unread, i + 1);
        list, unread := list + unread, [];
        consumed := true;
      } else {
        copied := copied[Target(dst, dstIsDir, keepPath, file) := file];
        CopiedNext(done, file, dst, dstIsDir, keepPath);
        done := done + [file];
      }
      i := i + 1;
    }
    assert list[..i] == list && args[..|args|] == args;
  }

  lemma FilesNext(list: seq<string>, i: nat)
    requires i < |list|
    ensures Files(list[..i + 1]) == if list[i] == DASH then Files(list[..i]) else Files(list[..i]) + [list[i]]
  {
    assert list[..i + 1][..i] == list[..i];
  }

  lemma CopiedNext(files: seq<string>, f: string, dst: string, dstIsDir: bool, keepPath: bool)
    ensures Copied(files + [f], dst, dstIsDir, keepPath)
         == Copied(files, dst, dstIsDir, keepPath)[Target(dst, dstIsDir, keepPath, f) := f]
  {
    assert (files + [f])[..|files + [f]| - 1] == files;
  }

  lemma DashNext(list: seq<string>, i: nat)
    requires i < |list|
    ensures DASH in list[..i + 1] <==> DASH in list[..i] || list[i] == DASH
  {
    assert list[..i + 1] == list[..i] + [list[i]];
  }

  lemma Grown(list: seq<string>, more: seq<string>, n: nat)
    requires n <= |list|
    ensures (list + more)[..n] == list[..n] && list + [] == list
  {
  }

  // ---------------------------------------------------------------- where a file goes

  lemma {:induction false} BasenameOf(dir: string, base: string)
    requires '/' !in base && (dir == "" || dir[|dir| - 1] == '/')
    ensures Basename(dir + base) == base
  {
    var f := dir + base;
    if base == "" {
      assert f == dir;
    } else {
      var init := base[..|base| - 1];
      assert f[..|f| - 1] == dir + init;
      BasenameOf(dir, init);
      assert base == init + [base[|base| - 1]];
    }
  }

  /** A destination that is no directory receives every file under its own name; a
      directory receives `dir/base` as `dst/base`, or as `dst/dir/base` when paths are
      kept, or in its own place when the kept path is absolute. */
  lemma TargetOf(dst: string, keepPath: bool, dir: string, base: string)
    requires '/' !in base && base != "" && (dir == "" || dir[|dir| - 1] == '/')
    requires dst != "" && dst[|dst| - 1] != '/'
    ensures Target(dst, false, keepPath, dir + base) == dst
    ensures Target(dst, true, false, dir + base) == dst + "/" + base == Target(dst + "/", true, false, dir + base)
    ensures !("/" <= dir) ==> Target(dst, true, true, dir + base) == dst + "/" + (dir + base)
    ensures "/" <= dir ==> Target(dst, true, true, dir + base) == dir + base
  {
    BasenameOf(dir, base);
    var f := dir + base;
    assert f[0] == if dir == "" then base[0] else dir[0];
    assert base[0] in base;
  }

  /** An argument "-" is replaced by nothing itself and brings the lines of standard input. */
  lemma DashReadsInput(before: seq<string>, after: seq<string>, stdin: seq<string>)
    ensures Worklist(before + ["-"] + after, stdin) == before + ["-"] + after + stdin
    ensures Files(["-"]) == []
  {
    assert (before + ["-"] + after)[|before|] == "-";
  }
}
