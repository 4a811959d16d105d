/**
 * The pure part of `GitHandler`: how the output of `git log` is turned into
 * a list of commit hashes and into a commit's metadata, and how an exit code
 * becomes a yes/no answer. Running `git` itself is outside the model; its
 * standard output and exit code are the inputs.
 */
module GitOutput {
  import opened Wrappers

  // ---------------------------------------------------------------------------
  // Python string operations
  // ---------------------------------------------------------------------------

  /** The characters `str.strip()` without arguments removes (`str.isspace`). */
  predicate IsSpace(c: char) {
    c == ' ' || '\t' <= c <= '\r' || '\U{1c}' <= c <= '\U{1f}' || c == '\U{85}' || c == '\U{a0}'
    || c == '\U{1680}' || '\U{2000}' <= c <= '\U{200a}' || c == '\U{2028}' || c == '\U{2029}'
    || c == '\U{202f}' || c == '\U{205f}' || c == '\U{3000}'
  }

  /** `s.lstrip()`: drops the leading whitespace. */
  function StripLeft(s: string): (r: string)
    ensures |r| <= |s| && r == s[|s| - |r|..]
    ensures forall i :: 0 <= i < |s| - |r| ==> IsSpace(s[i])
    ensures |r| > 0 ==> !IsSpace(r[0])
  {
    if |s| > 0 && IsSpace(s[0]) then StripLeft(s[1..]) else s
  }

  /** `s.rstrip()`: drops the trailing whitespace. */
  function StripRight(s: string): (r: string)
    ensures |r| <= |s| && r == s[..|r|]
    ensures forall i :: |r| <= i < |s| ==> IsSpace(s[i])
    ensures |r| > 0 ==> !IsSpace(r[|r| - 1])
  {
    if |s| > 0 && IsSpace(s[|s| - 1]) then StripRight(s[..|s| - 1]) else s
  }

  /** `s.strip()`. */
  function Strip(s: string): string {
    StripRight(StripLeft(s))
  }

  /** Leading whitespace in front of a text that starts with a non-space character is dropped. */
  lemma {:induction false} StripLeftSpaces(lead: string, rest: string)
    requires forall i :: 0 <= i < |lead| ==> IsSpace(lead[i])
    requires |rest| > 0 ==> !IsSpace(rest[0])
    ensures StripLeft(lead + rest) == rest
  {
    if |lead| > 0 {
      assert (lead + rest)[1..] == lead[1..] + rest;
      StripLeftSpaces(lead[1..], rest);
    } else {
      assert lead + rest == rest;
    }
  }

  /** Trailing whitespace after a text that ends with a non-space character is dropped. */
  lemma {:induction false} StripRightSpaces(rest: string, trail: string)
    requires forall i :: 0 <= i < |trail| ==> IsSpace(trail[i])
    requires |rest| > 0 ==> !IsSpace(rest[|rest| - 1])
    ensures StripRight(rest + trail) == rest
  {
    if |trail| > 0 {
      assert (rest + trail)[..|rest + trail| - 1] == rest + trail[..|trail| - 1];
      StripRightSpaces(rest, trail[..|trail| - 1]);
    } else {
      assert rest + trail == rest;
    }
  }

  /** Stripping leaves a text that starts and ends with non-space characters alone, whatever whitespace surrounds it. */
  lemma StripSurrounded(lead: string, core: string, trail: string)
    requires forall i :: 0 <= i < |lead| ==> IsSpace(lead[i])
    requires forall i :: 0 <= i < |trail| ==> IsSpace(trail[i])
    requires |core| > 0 && !IsSpace(core[0]) && !IsSpace(core[|core| - 1])
    ensures Strip(lead + core + trail) == core
  {
    assert lead + core + trail == lead + (core + trail);
    StripLeftSpaces(lead, core + trail);
    StripRightSpaces(core, trail);
  }

  /** `s.replace(c, "")` for one character `c`. */
  function RemoveChar(s: string, c: char): (r: string)
    ensures c !in r
    ensures forall x :: x in r ==> x in s
  {
    if |s| == 0 then ""
    else (if s[0] == c then "" else [s[0]]) + RemoveChar(s[1..], c)
  }

  lemma {:induction false} RemoveCharAppend(a: string, b: string, c: char)
    ensures RemoveChar(a + b, c) == RemoveChar(a, c) + RemoveChar(b, c)
  {
    if |a| > 0 {
      assert (a + b)[1..] == a[1..] + b;
      RemoveCharAppend(a[1..], b, c);
    } else {
      assert a + b == b;
    }
  }

  lemma {:induction false} RemoveCharAbsent(s: string, c: char)
    requires c !in s
    ensures RemoveChar(s, c) == s
  {
    if |s| > 0 {
      RemoveCharAbsent(s[1..], c);
    }
  }

  /** `sep` occurs in `s` at position `i`. */
  predicate OccursAt(s: string, sep: string, i: int) {
    0 <= i && i + |sep| <= |s| && s[i..i + |sep|] == sep
  }

  /** The position of the first occurrence of `sep` in `s`, or `|s|` when there is none. */
  function FindSep(s: string, sep: string, from: nat): (i: nat)
    requires |sep| > 0 && from <= |s|
    ensures from <= i <= |s|
    ensures i < |s| ==> OccursAt(s, sep, i)
    ensures forall j :: from <= j < i ==> !OccursAt(s, sep, j)
    ensures i == |s| ==> forall j :: from <= j < |s| ==> !OccursAt(s, sep, j)
    decreases |s| - from
  {
    if from + |sep| > |s| then |s|
    else if s[from..from + |sep|] == sep then from
    else FindSep(s, sep, from + 1)
  }

  /**
   * `s.split(sep)` for a non-empty separator: the pieces between the
   * non-overlapping occurrences of `sep`, found left to right. An empty
   * string gives one empty piece.
   */
  function Split(s: string, sep: string): (parts: seq<string>)
    requires |sep| > 0
    ensures |parts| > 0
    decreases |s|
  {
    var i := FindSep(s, sep, 0);
    if i == |s| then [s] else [s[..i]] + Split(s[i + |sep|..], sep)
  }

  /** `sep.join(parts)`. */
  function Join(parts: seq<string>, sep: string): string
    requires |parts| > 0
  {
    if |parts| == 1 then parts[0] else parts[0] + sep + Join(parts[1..], sep)
  }

  /** Joining the pieces with the separator gives back the text that was split. */
  lemma {:induction false} JoinSplit(s: string, sep: string)
    requires |sep| > 0
    ensures Join(Split(s, sep), sep) == s
    decreases |s|
  {
    var i := FindSep(s, sep, 0);
    if i < |s| {
      var rest := s[i + |sep|..];
      JoinSplit(rest, sep);
      assert Split(s, sep)[1..] == Split(rest, sep);
      assert s == s[..i] + sep + rest;
    }
  }

  /**
   * Splitting a join gives back the pieces, when no piece contains the
   * separator's first character (so no separator can start inside a piece).
   */
  lemma {:induction false} SplitJoin(parts: seq<string>, sep: string)
    requires |parts| > 0 && |sep| > 0
    requires forall k :: 0 <= k < |parts| ==> sep[0] !in parts[k]
    ensures Split(Join(parts, sep), sep) == parts
  {
    var p := parts[0];
    var s := Join(parts, sep);
    forall j | 0 <= j < |p| ensures !OccursAt(s, sep, j) {
      JoinHead(parts, sep);
      assert s[j] == p[j] && s[j] != sep[0];
      if j + |sep| <= |s| {
        assert s[j..j + |sep|][0] == s[j];
      }
    }
    if |parts| == 1 {
      assert FindSep(s, sep, 0) == |s|;
    } else {
      var rest := Join(parts[1..], sep);
      assert s == p + sep + rest;
      assert s[|p|..|p| + |sep|] == sep;
      assert OccursAt(s, sep, |p|);
      assert FindSep(s, sep, 0) == |p|;
      assert s[|p| + |sep|..] == rest;
      assert s[..|p|] == p;
      assert Split(s, sep) == [p] + Split(rest, sep);
      SplitJoin(parts[1..], sep);
      assert parts == [p] + parts[1..];
    }
  }

  /** A join starts with its first piece. */
  lemma JoinHead(parts: seq<string>, sep: string)
    requires |parts| > 0
    ensures |Join(parts, sep)| >= |parts[0]| && Join(parts, sep)[..|parts[0]|] == parts[0]
  {
  }

  /** Every piece of a split is free of the separator. */
  lemma {:induction false} SplitPiecesFree(s: string, sep: string)
    requires |sep| > 0
    ensures forall k, j :: 0 <= k < |Split(s, sep)| && 0 <= j ==> !OccursAt(Split(s, sep)[k], sep, j)
    decreases |s|
  {
    var i := FindSep(s, sep, 0);
    var parts := Split(s, sep);
    forall j | 0 <= j ensures !OccursAt(s[..i], sep, j) {
      if j + |sep| <= i {
        assert s[..i][j..j + |sep|] == s[j..j + |sep|];
        assert !OccursAt(s, sep, j);
      }
    }
    if i < |s| {
      SplitPiecesFree(s[i + |sep|..], sep);
      assert parts[1..] == Split(s[i + |sep|..], sep);
      forall k, j | 1 <= k < |parts| && 0 <= j ensures !OccursAt(parts[k], sep, j) {
        assert parts[k] == Split(s[i + |sep|..], sep)[k - 1];
      }
    }
  }

  // ---------------------------------------------------------------------------
  // getCommitHashes
  // ---------------------------------------------------------------------------

  /**
   * `getCommitHashes` on the output of `git log --reverse --format='%H'`:
   * stripped, every single quote removed, split on newlines.
   */
  function CommitHashes(output: string): (hashes: seq<string>)
    ensures |hashes| > 0
    ensures forall k :: 0 <= k < |hashes| ==> '\'' !in hashes[k] && '\n' !in hashes[k]
  {
    var text := RemoveChar(Strip(output), '\'');
    PiecesClean(text);
    Split(text, "\n")
  }

  /** The lines of a quote-free text hold neither quotes nor newlines. */
  lemma PiecesClean(text: string)
    requires '\'' !in text
    ensures forall k :: 0 <= k < |Split(text, "\n")| ==> '\'' !in Split(text, "\n")[k] && '\n' !in Split(text, "\n")[k]
  {
    var hashes := Split(text, "\n");
    SplitPiecesFree(text, "\n");
    JoinSplit(text, "\n");
    forall k | 0 <= k < |hashes| ensures '\'' !in hashes[k] && '\n' !in hashes[k] {
      PieceWithin(hashes, "\n", k);
      NoOccurrenceNoChar(hashes[k], '\n');
    }
  }

  /** A text in which the one-character separator `[c]` occurs nowhere does not contain `c`. */
  lemma NoOccurrenceNoChar(h: string, c: char)
    requires forall j :: 0 <= j ==> !OccursAt(h, [c], j)
    ensures c !in h
  {
    forall j | 0 <= j < |h| ensures h[j] != c {
      assert h[j..j + 1] == [h[j]];
      assert !OccursAt(h, [c], j);
    }
  }

  /** Every character of a piece is a character of the joined text. */
  lemma {:induction false} PieceWithin(parts: seq<string>, sep: string, k: nat)
    requires |parts| > 0 && k < |parts|
    ensures forall x :: x in parts[k] ==> x in Join(parts, sep)
  {
    if k > 0 {
      PieceWithin(parts[1..], sep, k - 1);
    }
  }

  /** Output of only whitespace (a repository without commits) yields one empty hash. */
  lemma NoCommitsOneEmptyHash(output: string)
    requires forall i :: 0 <= i < |output| ==> IsSpace(output[i])
    ensures CommitHashes(output) == [""]
  {
    assert StripLeft(output) == "";
  }

  /** The lines `git log --format='%H'` prints for `hashes`: each quoted, one per line. */
  function HashLog(hashes: seq<string>): (lines: seq<string>)
    ensures |lines| == |hashes|
    ensures forall k :: 0 <= k < |hashes| ==> lines[k] == "'" + hashes[k] + "'"
  {
    seq(|hashes|, k requires 0 <= k < |hashes| => "'" + hashes[k] + "'")
  }

  /** A hash as git prints it: non-empty, with no quote and no whitespace. */
  predicate PlainToken(h: string) {
    |h| > 0 && forall i :: 0 <= i < |h| ==> h[i] != '\'' && h[i] != ',' && !IsSpace(h[i])
  }

  /** Removing the quotes around a quote-free hash gives the hash. */
  lemma UnquoteOne(h: string)
    requires '\'' !in h
    ensures RemoveChar("'" + h + "'", '\'') == h
  {
    RemoveCharAbsent(h, '\'');
    RemoveCharAppend("'" + h, "'", '\'');
    RemoveCharAppend("'", h, '\'');
    assert RemoveChar("'", '\'') == "";
  }

  /** Quote removal across a newline joint. */
  lemma UnquoteJoint(line: string, rest: string)
    ensures RemoveChar(line + "\n" + rest, '\'') == RemoveChar(line, '\'') + "\n" + RemoveChar(rest, '\'')
  {
    RemoveCharAppend(line, "\n", '\'');
    RemoveCharAppend(line + "\n", rest, '\'');
    assert RemoveChar("\n", '\'') == "\n";
  }

  /** Removing quotes from the joined quoted lines joins the bare hashes. */
  lemma {:induction false} UnquoteLines(hashes: seq<string>)
    requires |hashes| > 0
    requires forall k :: 0 <= k < |hashes| ==> PlainToken(hashes[k])
    ensures RemoveChar(Join(HashLog(hashes), "\n"), '\'') == Join(hashes, "\n")
  {
    var lines := HashLog(hashes);
    UnquoteOne(hashes[0]);
    if |hashes| > 1 {
      assert lines[1..] == HashLog(hashes[1..]);
      UnquoteLines(hashes[1..]);
      UnquoteJoint(lines[0], Join(lines[1..], "\n"));
    }
  }

  lemma {:induction false} JoinEnds(parts: seq<string>, sep: string)
    requires |parts| > 0 && forall k :: 0 <= k < |parts| ==> |parts[k]| > 0
    ensures |Join(parts, sep)| > 0
    ensures Join(parts, sep)[0] == parts[0][0]
    ensures Join(parts, sep)[|Join(parts, sep)| - 1] == parts[|parts| - 1][|parts[|parts| - 1]| - 1]
  {
    if |parts| > 1 {
      JoinEnds(parts[1..], sep);
    }
  }

  /**
   * Reading back what `git log --reverse --format='%H'` prints: the quoted
   * hashes, one per line, with a final newline, give back the hashes in order.
   */
  lemma CommitHashesOfLog(hashes: seq<string>)
    requires |hashes| > 0
    requires forall k :: 0 <= k < |hashes| ==> PlainToken(hashes[k])
    ensures CommitHashes(Join(HashLog(hashes), "\n") + "\n") == hashes
  {
    var lines := HashLog(hashes);
    var core := Join(lines, "\n");
    JoinEnds(lines, "\n");
    StripSurrounded("", core, "\n");
    assert "" + core + "\n" == core + "\n";
    UnquoteLines(hashes);
    SplitJoin(hashes, "\n");
  }

  // ---------------------------------------------------------------------------
  // getCommitMetadata
  // ---------------------------------------------------------------------------

  /** The keys `getCommitMetadata` pairs with the fields of its format string. */
  const MetadataKeys: seq<string> := ["commitHash", "treeHash", "parentHashes", "authorName", "authorEmail",
    "authorDate", "committerName", "committerEmail", "committerDate", "gpgSignature"]

  const ParentKey: string := "parentHashes"

  lemma MetadataKeysDistinct()
    ensures forall i, j :: 0 <= i < j < |MetadataKeys| ==> MetadataKeys[i] != MetadataKeys[j]
    ensures MetadataKeys[2] == ParentKey
  {
  }

  /** A value of the metadata dictionary: a string, or the list of parent hashes. */
  datatype Field = Text(text: string) | Hashes(hashes: seq<string>)

  function Min(a: nat, b: nat): nat { if a < b then a else b }

  /** `dict(zip(keys, values))`: pairs up to the shorter list, a later key overwriting an earlier one. */
  function ZipMap(keys: seq<string>, values: seq<string>): (m: map<string, string>)
    ensures m.Keys == set i | 0 <= i < Min(|keys|, |values|) :: keys[i]
    decreases |keys|
  {
    var n := Min(|keys|, |values|);
    if n == 0 then map[]
    else
      var m := ZipMap(keys[..n - 1], values[..n - 1]);
      assert Min(|keys[..n - 1]|, |values[..n - 1]|) == n - 1;
      assert forall i :: 0 <= i < n - 1 ==> keys[..n - 1][i] == keys[i];
      m[keys[n - 1] := values[n - 1]]
  }

  lemma {:induction false} ZipMapValues(keys: seq<string>, values: seq<string>)
    requires forall i, j :: 0 <= i < j < |keys| ==> keys[i] != keys[j]
    ensures forall i :: 0 <= i < Min(|keys|, |values|) ==> ZipMap(keys, values)[keys[i]] == values[i]
    decreases |keys|
  {
    var n := Min(|keys|, |values|);
    if n > 0 {
      var ks, vs := keys[..n - 1], values[..n - 1];
      assert Min(|ks|, |vs|) == n - 1;
      ZipMapValues(ks, vs);
      var z := ZipMap(keys, values);
      assert z == ZipMap(ks, vs)[keys[n - 1] := values[n - 1]];
      forall i | 0 <= i < n ensures z[keys[i]] == values[i] {
        if i < n - 1 {
          assert ks[i] == keys[i] && vs[i] == values[i];
          assert keys[i] != keys[n - 1];
        }
      }
    }
  }

  /** The comma-separated fields of the output of `git log <hash> -n 1 --format='%H,,%T,,…,,%G?'`. */
  function MetadataValues(output: string): seq<string> {
    Split(RemoveChar(Strip(output), '\''), ",,")
  }

  /**
   * `getCommitMetadata`: the fields paired with the keys, and the parent
   * field split on single spaces. With fewer than three fields there is no
   * parent entry to split and the source raises `KeyError`: `None`.
   */
  function CommitMetadata(output: string): (r: Option<map<string, Field>>)
    ensures r.None? <==> |MetadataValues(output)| < 3
    ensures r.Some? ==> r.value.Keys == set i | 0 <= i < Min(|MetadataKeys|, |MetadataValues(output)|) :: MetadataKeys[i]
    ensures r.Some? ==> ParentKey in r.value && r.value[ParentKey] == Hashes(Split(MetadataValues(output)[2], " "))
    ensures r.Some? ==> forall i :: 0 <= i < Min(|MetadataKeys|, |MetadataValues(output)|) && i != 2 ==>
      MetadataKeys[i] in r.value && r.value[MetadataKeys[i]] == Text(MetadataValues(output)[i])
  {
    var values := MetadataValues(output);
    ParentPresent(values);
    if |values| < 3 then None
    else
      var m := ZipMap(MetadataKeys, values);
      FieldsOfValues(values);
      Some(Fields(m))
  }

  /** The parent entry exists exactly when there are at least three fields. */
  lemma ParentPresent(values: seq<string>)
    ensures ParentKey in ZipMap(MetadataKeys, values) <==> |values| >= 3
  {
    MetadataKeysDistinct();
    var n := Min(|MetadataKeys|, |values|);
    if |values| >= 3 {
      assert MetadataKeys[2] in ZipMap(MetadataKeys, values);
    } else {
      forall i | 0 <= i < n ensures MetadataKeys[i] != ParentKey {
        assert i < 2;
      }
    }
  }

  /** The dictionary after `metadata["parentHashes"]` is split on single spaces. */
  function Fields(m: map<string, string>): (f: map<string, Field>)
    ensures f.Keys == m.Keys
    ensures forall k :: k in m && k != ParentKey ==> f[k] == Text(m[k])
    ensures ParentKey in m ==> f[ParentKey] == Hashes(Split(m[ParentKey], " "))
  {
    map k | k in m :: if k == ParentKey then Hashes(Split(m[k], " ")) else Text(m[k])
  }

  lemma FieldsOfValues(values: seq<string>)
    requires |values| >= 3
    ensures var f := Fields(ZipMap(MetadataKeys, values));
      ParentKey in f && f[ParentKey] == Hashes(Split(values[2], " "))
      && forall i :: 0 <= i < Min(|MetadataKeys|, |values|) && i != 2 ==> MetadataKeys[i] in f && f[MetadataKeys[i]] == Text(values[i])
  {
    MetadataKeysDistinct();
    ZipMapValues(MetadataKeys, values);
    ParentPresent(values);
  }

  /** What the format string prints for a commit with `fields`: quoted, `,,`-separated, newline-ended. */
  function MetadataLog(fields: seq<string>): string
    requires |fields| > 0
  {
    "'" + Join(fields, ",,") + "'\n"
  }

  /** A field the metadata format can carry unambiguously: no quote and no comma. */
  predicate PlainField(f: string) {
    '\'' !in f && ',' !in f
  }

  /**
   * Reading back what the format string prints: ten plain fields give back
   * each field under its key, the parents split on spaces, and a root commit
   * (empty parent field) gets the one-element list `[""]`.
   */
  lemma CommitMetadataOfLog(fields: seq<string>)
    requires |fields| == |MetadataKeys|
    requires forall k :: 0 <= k < |fields| ==> PlainField(fields[k])
    ensures MetadataValues(MetadataLog(fields)) == fields
    ensures CommitMetadata(MetadataLog(fields)).Some?
    ensures forall i :: 0 <= i < |fields| && i != 2 ==>
      CommitMetadata(MetadataLog(fields)).value[MetadataKeys[i]] == Text(fields[i])
    ensures CommitMetadata(MetadataLog(fields)).value[ParentKey] == Hashes(Split(fields[2], " "))
    ensures fields[2] == "" ==> CommitMetadata(MetadataLog(fields)).value[ParentKey] == Hashes([""])
  {
    MetadataValuesOfLog(fields);
  }

  /** The fields of the printed line are the fields that were printed. */
  lemma MetadataValuesOfLog(fields: seq<string>)
    requires |fields| > 0
    requires forall k :: 0 <= k < |fields| ==> PlainField(fields[k])
    ensures MetadataValues(MetadataLog(fields)) == fields
  {
    var body := Join(fields, ",,");
    var core := "'" + body + "'";
    calc {
      MetadataValues(MetadataLog(fields));
      { assert MetadataLog(fields) == "" + core + "\n"; StripSurrounded("", core, "\n"); }
      Split(RemoveChar(core, '\''), ",,");
      { QuotedFieldsAbsent(fields); UnquoteOne(body); }
      Split(body, ",,");
      { SplitJoin(fields, ",,"); }
      fields;
    }
  }

  /** No quote appears in the `,,`-join of quote-free fields. */
  lemma {:induction false} QuotedFieldsAbsent(fields: seq<string>)
    requires |fields| > 0 && forall k :: 0 <= k < |fields| ==> PlainField(fields[k])
    ensures '\'' !in Join(fields, ",,")
  {
    if |fields| > 1 {
      QuotedFieldsAbsent(fields[1..]);
    }
  }

  // ---------------------------------------------------------------------------
  // isRepository and checkoutCommit
  // ---------------------------------------------------------------------------

  /** `isRepository` and `checkoutCommit`: the command succeeded exactly when it exited with 0. */
  function Succeeded(returnCode: int): (ok: bool)
    ensures ok <==> returnCode == 0
  {
    if returnCode == 0 then true else false
  }
}
