/** The whole run over a site: `process_file` on one page of a file system
    (read it, rewrite it, keep a backup) and `main`'s loop over every page,
    counting the pages it rewrote. The file system is a map from paths,
    relative to the site root, to file contents; `shutil.copy2` and
    `write_text` are updates of that map. */
module Site {
  import opened CanonicalUrl
  import opened HeadSection
  import opened Upsert

  /** The configured base URL and the platform's directory separator. */
  datatype Config = Config(baseUrl: string, sep: char)

  const PageSuffix := ".html"
  const BackupSuffix := ".bak"

  /** `path.with_suffix(path.suffix + ".bak")`: for a name ending in ".html"
      the suffix is ".html", so the backup sits at the path plus ".bak". */
  function BackupPath(path: string): (b: string)
    ensures |b| == |path| + |BackupSuffix| && b[..|path|] == path
    ensures EndsWith(b, BackupSuffix)
  {
    path + BackupSuffix
  }

  /** The canonical URL of the page at `path`. */
  function PageUrl(cfg: Config, path: string): string
  {
    MakeCanonicalUrl(cfg.baseUrl, path, cfg.sep)
  }

  /** Whether `process_file(path)` rewrites the page (and returns true):
      exactly when its text has a head section. */
  predicate Rewrites(fs: map<string, string>, cfg: Config, path: string)
    requires path in fs
  {
    SearchHead(fs[path], 0).Some?
  }

  /** What `process_file(path)` does to the file system: with no head
      section nothing is written; otherwise the old text is copied to the
      backup path and the new text is written to the page. */
  function Step(fs: map<string, string>, cfg: Config, path: string): (r: map<string, string>)
    requires path in fs
    ensures fs.Keys <= r.Keys
  {
    match ProcessText(fs[path], PageUrl(cfg, path))
    case Skipped => fs
    case Rewritten(text, _) => fs[BackupPath(path) := fs[path]][path := text]
  }

  /** The file system after `main`'s loop has processed `paths` in order. */
  function RunFiles(fs: map<string, string>, cfg: Config, paths: seq<string>): (r: map<string, string>)
    requires forall i :: 0 <= i < |paths| ==> paths[i] in fs
    ensures fs.Keys <= r.Keys
  {
    if paths == [] then fs
    else Step(RunFiles(fs, cfg, paths[..|paths| - 1]), cfg, paths[|paths| - 1])
  }

  /** The counter after `main`'s loop has processed `paths` in order: the
      number of calls that returned true, each on the file system as the
      calls before it left it. */
  function RunCount(fs: map<string, string>, cfg: Config, paths: seq<string>): (n: nat)
    requires forall i :: 0 <= i < |paths| ==> paths[i] in fs
    ensures n <= |paths|
  {
    if paths == [] then 0
    else
      var prefix := paths[..|paths| - 1];
      RunCount(fs, cfg, prefix) + if Rewrites(RunFiles(fs, cfg, prefix), cfg, paths[|paths| - 1]) then 1 else 0
  }

  /** The number of pages among `paths` whose text in `fs` has a head
      section. */
  function CountWithHead(fs: map<string, string>, cfg: Config, paths: seq<string>): (n: nat)
    requires forall i :: 0 <= i < |paths| ==> paths[i] in fs
    ensures n <= |paths|
  {
    if paths == [] then 0
    else CountWithHead(fs, cfg, paths[..|paths| - 1]) + if Rewrites(fs, cfg, paths[|paths| - 1]) then 1 else 0
  }

  /** The pages of a walk: every path is an ".html" name, and none is
      listed twice. */
  predicate Pages(paths: seq<string>)
  {
    && (forall i :: 0 <= i < |paths| ==> EndsWith(paths[i], PageSuffix))
    && (forall i, j :: 0 <= i < j < |paths| ==> paths[i] != paths[j])
  }

  /** The file system of a run. */
  class FileSystem {
    var files: map<string, string>

    constructor (initial: map<string, string>)
      ensures files == initial
    {
      files := initial;
    }

    /** `process_file(path)`. */
    method ProcessFile(cfg: Config, path: string) returns (changed: bool)
      requires path in files
      modifies this
      ensures files == Step(old(files), cfg, path)
      ensures changed == Rewrites(old(files), cfg, path)
    {
      var text := files[path];
      var outcome := ProcessText(text, PageUrl(cfg, path));
      if outcome.Skipped? {
        return false;
      }
      files := files[BackupPath(path) := text];
      files := files[path := outcome.text];
      changed := true;
    }

    /** One pass of `main`'s loop body, `if process_file(path): changed += 1`,
        on the `i`-th page of the walk, after the pages before it. */
    method Visit(ghost fs: map<string, string>, cfg: Config, paths: seq<string>, i: nat, changed: nat)
      returns (changed': nat)
      requires forall j :: 0 <= j < |paths| ==> paths[j] in fs
      requires i < |paths|
      requires files == RunFiles(fs, cfg, paths[..i])
      requires changed == RunCount(fs, cfg, paths[..i])
      modifies this
      ensures files == RunFiles(fs, cfg, paths[..i + 1])
      ensures changed' == RunCount(fs, cfg, paths[..i + 1])
    {
      RunNext(fs, cfg, paths, i);
      ghost var before := files;
      var c := ProcessFile(cfg, paths[i]);
      RunAdvance(fs, cfg, paths, i, before, files, c);
      changed' := changed + if c then 1 else 0;
    }

    /** `main`: process every page in the order of the walk and count the
        pages that were rewritten. */
    method Run(cfg: Config, paths: seq<string>) returns (changed: nat)
      requires forall i :: 0 <= i < |paths| ==> paths[i] in files
      modifies this
      ensures files == RunFiles(old(files), cfg, paths)
      ensures changed == RunCount(old(files), cfg, paths)
    {
      changed := 0;
      var i := 0;
      while i < |paths|
        invariant 0 <= i <= |paths|
        invariant forall j :: 0 <= j < |paths| ==> paths[j] in old(files)
        invariant files == RunFiles(old(files), cfg, paths[..i])
        invariant changed == RunCount(old(files), cfg, paths[..i])
      {
        changed := Visit(old(files), cfg, paths, i, changed);
        i := i + 1;
      }
      assert paths[..|paths|] == paths;
    }
  }

  // ---------------------------------------------------------------------

  /** The loop invariant carried over one call of `process_file`. */
  lemma RunAdvance(fs: map<string, string>, cfg: Config, paths: seq<string>, i: nat,
                   before: map<string, string>, after: map<string, string>, c: bool)
    requires forall j :: 0 <= j < |paths| ==> paths[j] in fs
    requires i < |paths|
    requires before == RunFiles(fs, cfg, paths[..i])
    requires paths[i] in before
    requires after == Step(before, cfg, paths[i])
    requires c == Rewrites(before, cfg, paths[i])
    ensures after == RunFiles(fs, cfg, paths[..i + 1])
    ensures RunCount(fs, cfg, paths[..i + 1]) == RunCount(fs, cfg, paths[..i]) + if c then 1 else 0
  {
    RunNext(fs, cfg, paths, i);
  }

  /** One more step of the loop. */
  lemma RunNext(fs: map<string, string>, cfg: Config, paths: seq<string>, i: nat)
    requires forall j :: 0 <= j < |paths| ==> paths[j] in fs
    requires i < |paths|
    ensures paths[i] in RunFiles(fs, cfg, paths[..i])
    ensures RunFiles(fs, cfg, paths[..i + 1]) == Step(RunFiles(fs, cfg, paths[..i]), cfg, paths[i])
    ensures RunCount(fs, cfg, paths[..i + 1]) ==
            RunCount(fs, cfg, paths[..i]) + if Rewrites(RunFiles(fs, cfg, paths[..i]), cfg, paths[i]) then 1 else 0
  {
    var t := paths[..i + 1];
    assert t[..|t| - 1] == paths[..i];
    assert t[|t| - 1] == paths[i];
  }

  /** A backup is never a page: it ends in ".bak", a page in ".html". */
  lemma BackupNotPage(p: string, q: string)
    requires EndsWith(q, PageSuffix)
    ensures BackupPath(p) != q
  {
    assert BackupPath(p)[|p| + 3] == 'k';
    assert q[|q| - 1] == 'l';
  }

  /** Two pages have two backups. */
  lemma BackupInjective(p: string, q: string)
    requires p != q
    ensures BackupPath(p) != BackupPath(q)
  {
  }

  /** The prefix of a walk is a walk. */
  lemma PagesPrefix(paths: seq<string>)
    requires Pages(paths) && paths != []
    ensures Pages(paths[..|paths| - 1])
  {
  }

  /** `process_file(path)` touches no file but the page and its backup. */
  lemma StepOther(fs: map<string, string>, cfg: Config, path: string, k: string)
    requires path in fs
    requires k != path && k != BackupPath(path)
    ensures k in Step(fs, cfg, path) <==> k in fs
    ensures k in fs ==> Step(fs, cfg, path)[k] == fs[k]
  {
  }

  /** `process_file(path)` returns true exactly when the page has a head
      section. Then it writes the new text to the page and the old text to
      the backup, adding at most the backup as a new file; otherwise the
      file system is unchanged. */
  lemma StepEffect(fs: map<string, string>, cfg: Config, path: string)
    requires path in fs
    ensures Rewrites(fs, cfg, path) <==> SearchHead(fs[path], 0).Some?
    ensures !Rewrites(fs, cfg, path) ==> Step(fs, cfg, path) == fs
    ensures Rewrites(fs, cfg, path) ==>
              var r := Step(fs, cfg, path);
              && r.Keys == fs.Keys + {BackupPath(path)}
              && r[path] == ProcessText(fs[path], PageUrl(cfg, path)).text
              && r[BackupPath(path)] == fs[path]
  {
    assert BackupPath(path) != path by {
      assert |BackupPath(path)| != |path|;
    }
  }

  /** The run writes only the pages it is given and their backups: every
      other file keeps its content, and no other file appears. */
  lemma {:induction false} RunFrame(fs: map<string, string>, cfg: Config, paths: seq<string>, k: string)
    requires forall i :: 0 <= i < |paths| ==> paths[i] in fs
    requires forall i :: 0 <= i < |paths| ==> k != paths[i] && k != BackupPath(paths[i])
    ensures k in RunFiles(fs, cfg, paths) <==> k in fs
    ensures k in fs ==> RunFiles(fs, cfg, paths)[k] == fs[k]
  {
    if paths != [] {
      var prefix := paths[..|paths| - 1];
      RunFrame(fs, cfg, prefix, k);
      StepOther(RunFiles(fs, cfg, prefix), cfg, paths[|paths| - 1], k);
    }
  }

  /** Each page is read before anything has touched it: the run counts
      exactly the pages that have a head section. */
  lemma {:induction false} RunCountsHeads(fs: map<string, string>, cfg: Config, paths: seq<string>)
    requires forall i :: 0 <= i < |paths| ==> paths[i] in fs
    requires Pages(paths)
    ensures RunCount(fs, cfg, paths) == CountWithHead(fs, cfg, paths)
  {
    if paths != [] {
      var prefix := paths[..|paths| - 1];
      var last := paths[|paths| - 1];
      PagesPrefix(paths);
      RunCountsHeads(fs, cfg, prefix);
      forall i | 0 <= i < |prefix|
        ensures last != prefix[i] && last != BackupPath(prefix[i])
      {
        BackupNotPage(prefix[i], last);
      }
      RunFrame(fs, cfg, prefix, last);
    }
  }

  /** The state `r` holds for the page at `p` after `process_file(p)` on
      `fs`: the rewritten text at the page and the original at the backup
      when the page has a head section; otherwise the page and its backup
      path as they were in `fs`. */
  predicate PageDone(fs: map<string, string>, r: map<string, string>, cfg: Config, p: string)
    requires p in fs
  {
    match ProcessText(fs[p], PageUrl(cfg, p))
    case Rewritten(text, _) =>
      p in r && r[p] == text && BackupPath(p) in r && r[BackupPath(p)] == fs[p]
    case Skipped =>
      && p in r && r[p] == fs[p]
      && (BackupPath(p) in r <==> BackupPath(p) in fs)
      && (BackupPath(p) in fs ==> r[BackupPath(p)] == fs[BackupPath(p)])
  }

  /** `process_file(p)` on a file system where `p` and its backup are as in
      `fs` leaves the page done. */
  lemma StepDone(fs: map<string, string>, before: map<string, string>, cfg: Config, p: string)
    requires p in fs && p in before && before[p] == fs[p]
    requires BackupPath(p) in before <==> BackupPath(p) in fs
    requires BackupPath(p) in fs ==> before[BackupPath(p)] == fs[BackupPath(p)]
    ensures PageDone(fs, Step(before, cfg, p), cfg, p)
  {
  }

  /** A later `process_file` on another page keeps a page done. */
  lemma StepKeepsDone(fs: map<string, string>, r: map<string, string>, cfg: Config, p: string, q: string)
    requires p in fs && q in r
    requires PageDone(fs, r, cfg, p)
    requires p != q && p != BackupPath(q) && BackupPath(p) != q && BackupPath(p) != BackupPath(q)
    ensures PageDone(fs, Step(r, cfg, q), cfg, p)
  {
    StepOther(r, cfg, q, p);
    StepOther(r, cfg, q, BackupPath(p));
  }

  /** What the run leaves at each page and its backup: a page with a head
      section holds the rewritten text and its backup the original text; a
      page without one, and its backup path, are as they were. */
  lemma {:induction false} RunPerFile(fs: map<string, string>, cfg: Config, paths: seq<string>, i: nat)
    requires forall j :: 0 <= j < |paths| ==> paths[j] in fs
    requires Pages(paths)
    requires i < |paths|
    ensures PageDone(fs, RunFiles(fs, cfg, paths), cfg, paths[i])
  {
    var p := paths[i];
    var prefix := paths[..|paths| - 1];
    var last := paths[|paths| - 1];
    PagesPrefix(paths);
    if i == |paths| - 1 {
      forall j | 0 <= j < |prefix|
        ensures p != prefix[j] && p != BackupPath(prefix[j])
      {
        BackupNotPage(prefix[j], p);
      }
      RunFrame(fs, cfg, prefix, p);
      forall j | 0 <= j < |prefix|
        ensures BackupPath(p) != prefix[j] && BackupPath(p) != BackupPath(prefix[j])
      {
        BackupNotPage(p, prefix[j]);
        BackupInjective(p, prefix[j]);
      }
      RunFrame(fs, cfg, prefix, BackupPath(p));
      StepDone(fs, RunFiles(fs, cfg, prefix), cfg, p);
    } else {
      assert prefix[i] == p;
      RunPerFile(fs, cfg, prefix, i);
      BackupNotPage(last, p);
      BackupNotPage(p, last);
      BackupInjective(p, last);
      StepKeepsDone(fs, RunFiles(fs, cfg, prefix), cfg, p, last);
    }
  }
}
