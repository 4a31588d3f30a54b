/** Build identification of version/version.go: five strings fixed at link
    time, the application and version names derived from them, and the
    five-line report. */
module Version {
  import Text

  /** The package variables `BuildTS`, `GitHash`, `GitBranch`, `Version` and
      `App`, set at link time. */
  datatype BuildInfo = BuildInfo(buildTS: string, gitHash: string, gitBranch: string, version: string, app: string)

  /** The value of a variable the link step did not set. */
  const Unset: string := "None"

  /** The variables of a plain `go build`. */
  const Defaults: BuildInfo := BuildInfo(Unset, Unset, Unset, Unset, Unset)

  /** How many characters of the commit hash a version keeps. */
  const ShortHashLen: nat := 7

  /** `GetApp`: the application name, suffixed with the branch once it is set. */
  function GetApp(info: BuildInfo): (r: string)
    ensures info.app == Unset ==> r == Unset
    ensures info.app != Unset ==>
              && |r| == |info.app| + 1 + |info.gitBranch|
              && r[..|info.app|] == info.app && r[|info.app|] == '-' && r[|info.app| + 1..] == info.gitBranch
  {
    if info.app != Unset then info.app + "-" + info.gitBranch else info.app
  }

  /** The hash as `GetVersion` cuts it: at most its first seven characters. */
  function ShortHash(hash: string): (h: string)
    ensures |h| <= ShortHashLen && h <= hash
    ensures |hash| <= ShortHashLen ==> h == hash
    ensures |hash| > ShortHashLen ==> |h| == ShortHashLen
  {
    if |hash| > ShortHashLen then hash[..ShortHashLen] else hash
  }

  /** `GetVersion`: branch and short hash when the hash is known, else the
      configured version. */
  function GetVersion(info: BuildInfo): (r: string)
    ensures info.gitHash == Unset ==> r == info.version
    ensures info.gitHash != Unset ==>
              && |r| == |info.gitBranch| + 1 + |ShortHash(info.gitHash)|
              && r[..|info.gitBranch|] == info.gitBranch && r[|info.gitBranch|] == '-'
              && r[|info.gitBranch| + 1..] <= info.gitHash
  {
    if info.gitHash != Unset then info.gitBranch + "-" + ShortHash(info.gitHash) else info.version
  }

  /** Joining two fields with `'-'`. */
  lemma JoinPair(a: string, b: string)
    ensures Text.Join([a, b], '-') == a + "-" + b
  {
    assert [a, b][1..] == [b];
  }

  /** When neither part holds a `'-'`, the application name splits back into
      the configured name and the branch. */
  lemma AppSplits(info: BuildInfo)
    requires info.app != Unset && '-' !in info.app && '-' !in info.gitBranch
    ensures Text.Split(GetApp(info), '-') == [info.app, info.gitBranch]
  {
    JoinPair(info.app, info.gitBranch);
    Text.SplitJoin([info.app, info.gitBranch], '-');
  }

  /** When neither part holds a `'-'`, a version built from a hash splits
      back into the branch and a prefix of the hash of at most seven
      characters, the whole hash when it is that short. */
  lemma VersionSplits(info: BuildInfo)
    requires info.gitHash != Unset && '-' !in info.gitBranch && '-' !in info.gitHash
    ensures var fields := Text.Split(GetVersion(info), '-');
            && |fields| == 2 && fields[0] == info.gitBranch
            && fields[1] <= info.gitHash && |fields[1]| <= ShortHashLen
            && (|info.gitHash| <= ShortHashLen ==> fields[1] == info.gitHash)
  {
    var h := ShortHash(info.gitHash);
    assert '-' !in h by {
      assert forall i :: 0 <= i < |h| ==> h[i] == info.gitHash[i];
    }
    JoinPair(info.gitBranch, h);
    Text.SplitJoin([info.gitBranch, h], '-');
  }

  /** `strings.Builder`: the text written so far. */
  class Builder {
    var text: string

    constructor ()
      ensures text == ""
    {
      text := "";
    }

    /** `WriteString`: appends `s`. */
    method WriteString(s: string)
      modifies this
      ensures text == old(text) + s
    {
      text := text + s;
    }
  }

  /** The captions of the report's lines. */
  const AppCaption: string := "Application:"
  const VersionCaption: string := "Version:"
  const BranchCaption: string := "Git Branch:"
  const CommitCaption: string := "Git Commit:"
  const BuildTimeCaption: string := "Build Time:"

  /** The captions in the order of the report. */
  const Labels: seq<string> := [AppCaption, VersionCaption, BranchCaption, CommitCaption, BuildTimeCaption]

  /** The values of the report, in the order of `Labels`. */
  function Values(info: BuildInfo): (r: seq<string>)
    ensures |r| == |Labels|
  {
    [info.app, GetVersion(info), info.gitBranch, info.gitHash, info.buildTS]
  }

  /** The text of a line before its `'\n'`: the caption, the value, a space. */
  function Field(caption: string, value: string): string {
    caption + value + " "
  }

  /** A line of the report, as `fmt.Sprintf("<caption>%s \n", value)` formats it. */
  function Line(caption: string, value: string): string {
    Field(caption, value) + "\n"
  }

  /** The report's fields, one per caption. */
  function Fields(info: BuildInfo): (r: seq<string>)
    ensures |r| == |Labels|
    ensures forall i :: 0 <= i < |Labels| ==> r[i] == Field(Labels[i], Values(info)[i])
  {
    seq(|Labels|, i requires 0 <= i < |Labels| => Field(Labels[i], Values(info)[i]))
  }

  /** Fields written one after the other, each followed by `'\n'`. */
  function Lines(fields: seq<string>): string
    decreases |fields|
  {
    if |fields| == 0 then "" else Lines(fields[..|fields| - 1]) + (fields[|fields| - 1] + "\n")
  }

  /** The report: one line per caption of `Labels`, in order. */
  function Report(info: BuildInfo): string {
    Lines(Fields(info))
  }

  /** One more write of line `k` of the report after the first `k`. */
  lemma WriteNext(info: BuildInfo, k: nat)
    requires k < |Labels|
    ensures Lines(Fields(info)[..k]) + Line(Labels[k], Values(info)[k]) == Lines(Fields(info)[..k + 1])
  {
    assert Fields(info)[..k + 1][..k] == Fields(info)[..k];
  }

  /** `FullVersionInfo`: the five lines written one after the other into a
      builder. */
  method FullVersionInfo(info: BuildInfo) returns (s: string)
    ensures s == Report(info)
  {
    var buf := new Builder();
    assert Fields(info)[..0] == [];
    buf.WriteString(Line(AppCaption, info.app));
    WriteNext(info, 0);
    buf.WriteString(Line(VersionCaption, GetVersion(info)));
    WriteNext(info, 1);
    buf.WriteString(Line(BranchCaption, info.gitBranch));
    WriteNext(info, 2);
    buf.WriteString(Line(CommitCaption, info.gitHash));
    WriteNext(info, 3);
    buf.WriteString(Line(BuildTimeCaption, info.buildTS));
    WriteNext(info, 4);
    assert Fields(info)[..5] == Fields(info);
    s := buf.text;
  }

  /** Joining one more field at the end. */
  lemma {:induction false} JoinSnoc(fields: seq<string>, x: string, sep: char)
    requires |fields| >= 1
    ensures Text.Join(fields + [x], sep) == Text.Join(fields, sep) + [sep] + x
    decreases |fields|
  {
    assert (fields + [x])[0] == fields[0];
    assert (fields + [x])[1..] == fields[1..] + [x];
    if |fields| > 1 {
      JoinSnoc(fields[1..], x, sep);
    }
  }

  /** Lines are the fields joined with `'\n'`, with an empty field after the
      last. */
  lemma {:induction false} LinesJoin(fields: seq<string>)
    ensures Text.Join(fields + [""], '\n') == Lines(fields)
    decreases |fields|
  {
    if |fields| > 0 {
      var init, last := fields[..|fields| - 1], fields[|fields| - 1];
      LinesJoin(init);
      assert fields == init + [last];
      if |init| > 0 {
        JoinSnoc(init, "", '\n');
        JoinSnoc(init, last, '\n');
        assert Text.Join(init + [last], '\n') == Lines(init) + last;
      } else {
        assert Text.Join(init + [last], '\n') == Lines(init) + last;
      }
      JoinSnoc(fields, "", '\n');
    }
  }

  /** No caption holds a `'\n'`. */
  lemma CaptionsOneLine()
    ensures forall i :: 0 <= i < |Labels| ==> '\n' !in Labels[i]
  {
  }

  /** When no value holds a `'\n'`, splitting the report on `'\n'` gives back
      each caption with its value, in order, and an empty last field. */
  lemma ReportSplits(info: BuildInfo)
    requires forall i :: 0 <= i < |Labels| ==> '\n' !in Values(info)[i]
    ensures var fields := Text.Split(Report(info), '\n');
            && |fields| == |Labels| + 1 && fields[|Labels|] == ""
            && forall i :: 0 <= i < |Labels| ==> fields[i] == Labels[i] + Values(info)[i] + " "
  {
    var f := Fields(info) + [""];
    CaptionsOneLine();
    assert forall i :: 0 <= i < |Labels| ==> f[i] == Labels[i] + Values(info)[i] + " ";
    LinesJoin(Fields(info));
    Text.SplitJoin(f, '\n');
  }

  /** A plain build: the name and the version stay `None`, and so does every
      value of the report. */
  lemma DefaultBuild()
    ensures GetApp(Defaults) == Unset && GetVersion(Defaults) == Unset
    ensures Values(Defaults) == [Unset, Unset, Unset, Unset, Unset]
  {
  }
}
