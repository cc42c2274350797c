/** The clean-up `generate_sql` applies to the language model's reply before
    the text is run as SQL: strip, drop a markdown fence, drop every line
    holding a comment marker or a placeholder, rejoin and strip again. */
module Sanitizer {
  import opened Text

  const SqlFence: string := "```sql"
  const Fence: string := "```"

  /** A line the filter drops: it holds the SQL comment marker `--` or the
      placeholder token `YOUR_`, anywhere, string literals included. */
  predicate IsNoise(line: string): (noise: bool)
    ensures noise ==> '-' in line || 'Y' in line
    ensures (exists k :: 0 <= k < |line| - 1 && line[k] == '-' && line[k + 1] == '-') ==> noise
  {
    NoiseMarkers(line);
    Contains(line, "--") || Contains(line, "YOUR_")
  }

  /** A noise line holds the first letter of a marker; two adjacent hyphens
      anywhere make one. */
  lemma NoiseMarkers(line: string)
    ensures Contains(line, "--") || Contains(line, "YOUR_") ==> '-' in line || 'Y' in line
    ensures (exists k :: 0 <= k < |line| - 1 && line[k] == '-' && line[k + 1] == '-')
      ==> Contains(line, "--")
  {
    if '-' !in line {
      MissingFirstLetter(line, "--");
    }
    if 'Y' !in line {
      MissingFirstLetter(line, "YOUR_");
    }
    if k :| 0 <= k < |line| - 1 && line[k] == '-' && line[k + 1] == '-' {
      assert line[k..k + 2] == "--";
      assert OccursAt(line, "--", k);
    }
  }

  /** The list comprehension that keeps the lines that are not noise. */
  function CleanLines(lines: seq<string>): (r: seq<string>)
    ensures forall k :: 0 <= k < |r| ==> !IsNoise(r[k])
    decreases |lines|
  {
    if lines == [] then []
    else (if IsNoise(lines[0]) then [] else [lines[0]]) + CleanLines(lines[1..])
  }

  /** The three fence tests, in the source's order: a leading "```sql", then
      a leading "```", then a trailing "```". Only the lower-case tag is known.
      A text with no fence at either end is left alone; otherwise what is left
      is a contiguous part of it, at most twelve characters shorter. */
  function Unfence(s: string): (r: string)
    ensures !StartsWith(s, Fence) && !EndsWith(s, Fence) ==> r == s
    ensures |r| <= |s| <= |r| + 12
    ensures exists i: nat :: OccursAt(s, r, i)
  {
    assert |SqlFence| == 6 && |Fence| == 3;
    var front := DropPrefix(DropPrefix(s, SqlFence), Fence);
    var r := DropSuffix(front, Fence);
    assert !StartsWith(s, Fence) ==> !StartsWith(s, SqlFence) by {
      StartsWithPrefix(s, SqlFence, Fence);
    }
    assert s[|s| - |front|..][..|r|] == s[|s| - |front|..|s| - |front| + |r|];
    assert OccursAt(s, r, |s| - |front|);
    r
  }

  /** `s[len(p):]` when `s.startswith(p)`, else `s`: a suffix of `s`. */
  function DropPrefix(s: string, p: string): (r: string)
    ensures |r| <= |s| <= |r| + |p| && r == s[|s| - |r|..]
  {
    if StartsWith(s, p) then s[|p|..] else s
  }

  /** `s[:-len(p)]` when `s.endswith(p)`, else `s`: a prefix of `s`. */
  function DropSuffix(s: string, p: string): (r: string)
    ensures |r| <= |s| <= |r| + |p| && r == s[..|r|]
  {
    if EndsWith(s, p) then s[..|s| - |p|] else s
  }

  /** The SQL text that `generate_sql` returns for the raw reply `reply`: it
      has no leading or trailing whitespace, and nowhere in it, so on none of
      its lines, is there a `--` or a `YOUR_`. */
  function Sanitize(reply: string): (sql: string)
    ensures sql == [] || (!IsSpace(sql[0]) && !IsSpace(sql[|sql| - 1]))
    ensures !Contains(sql, "--") && !Contains(sql, "YOUR_")
  {
    var kept := CleanLines(Split(Unfence(Strip(reply)), '\n'));
    StripJoinClean(kept);
    Strip(Join(kept, "\n"))
  }

  /** `ys` is `xs` with some elements deleted, the rest in their order. */
  ghost predicate IsSubsequence(ys: seq<string>, xs: seq<string>)
    decreases |xs|
  {
    if ys == [] then true
    else if xs == [] then false
    else if ys[0] == xs[0] then IsSubsequence(ys[1..], xs[1..])
    else IsSubsequence(ys, xs[1..])
  }

  lemma {:induction false} SkipHead(ys: seq<string>, xs: seq<string>)
    requires xs != [] && IsSubsequence(ys, xs[1..])
    ensures IsSubsequence(ys, xs)
    decreases |xs|, 0
  {
    if ys != [] && ys[0] == xs[0] {
      SubsequenceTail(ys, xs[1..]);
    }
  }

  lemma {:induction false} SubsequenceTail(ys: seq<string>, xs: seq<string>)
    requires ys != [] && IsSubsequence(ys, xs)
    ensures IsSubsequence(ys[1..], xs)
    decreases |xs|, 1
  {
    if ys[0] == xs[0] {
      SkipHead(ys[1..], xs);
    } else {
      SubsequenceTail(ys, xs[1..]);
      SkipHead(ys[1..], xs);
    }
  }

  /** The surviving lines keep their original relative order. */
  lemma {:induction false} CleanLinesKeepsOrder(lines: seq<string>)
    ensures IsSubsequence(CleanLines(lines), lines)
    decreases |lines|
  {
    if lines != [] {
      var rest := CleanLines(lines[1..]);
      CleanLinesKeepsOrder(lines[1..]);
      if IsNoise(lines[0]) {
        assert CleanLines(lines) == rest;
        SkipHead(rest, lines);
      } else {
        assert ([lines[0]] + rest)[1..] == rest;
      }
    }
  }

  /** Every line that is not noise survives as often as it occurs; every
      noise line is gone. With the order above, the surviving lines are
      exactly the non-noise lines of the input, in order. */
  lemma {:induction false} CleanLinesKeepsEveryCleanLine(lines: seq<string>, l: string)
    ensures multiset(CleanLines(lines))[l] == if IsNoise(l) then 0 else multiset(lines)[l]
    decreases |lines|
  {
    if lines != [] {
      CleanLinesKeepsEveryCleanLine(lines[1..], l);
      assert lines == [lines[0]] + lines[1..];
    }
  }

  /** Lines that are all kept pass the filter unchanged. */
  lemma {:induction false} CleanLinesOfCleanText(lines: seq<string>)
    requires forall k :: 0 <= k < |lines| ==> !IsNoise(lines[k])
    ensures CleanLines(lines) == lines
    decreases |lines|
  {
    if lines != [] {
      CleanLinesOfCleanText(lines[1..]);
    }
  }

  /** Clean lines, joined by newlines and stripped, hold no `--` and no
      `YOUR_`: neither marker holds a newline, so neither can straddle two
      lines. */
  lemma StripJoinClean(kept: seq<string>)
    requires forall k :: 0 <= k < |kept| ==> !IsNoise(kept[k])
    ensures !Contains(Strip(Join(kept, "\n")), "--") && !Contains(Strip(Join(kept, "\n")), "YOUR_")
  {
    var joined := Join(kept, "\n");
    JoinAvoids(kept, '\n', "--");
    JoinAvoids(kept, '\n', "YOUR_");
    var i, j := StripSpan(joined);
    if Contains(joined[i..j], "--") {
      ContainsInSlice(joined, i, j, "--");
    }
    if Contains(joined[i..j], "YOUR_") {
      ContainsInSlice(joined, i, j, "YOUR_");
    }
  }

  /** A reply with no fence at either end and no comment or placeholder line
      comes back as itself, stripped. */
  lemma SanitizePlainReply(reply: string)
    requires !StartsWith(Strip(reply), Fence) && !EndsWith(Strip(reply), Fence)
    requires forall k :: 0 <= k < |Split(Strip(reply), '\n')| ==>
      !IsNoise(Split(Strip(reply), '\n')[k])
    ensures Sanitize(reply) == Strip(reply)
  {
    var s := Strip(reply);
    StartsWithPrefix(s, SqlFence, Fence);
    assert Unfence(s) == s;
    CleanLinesOfCleanText(Split(s, '\n'));
    JoinSplit(s, '\n');
    StripIdempotent(reply);
  }

  /** What the leading fence test leaves of a tag: all of it, unless it starts
      with the lower-case "sql", whose three letters go with the fence. */
  function TagRest(tag: string): string {
    if StartsWith(tag, "sql") then tag[3..] else tag
  }

  lemma {:induction false} FencedReplyIsStripped(tag: string, body: string)
    ensures var reply := Fence + tag + "\n" + body + "\n" + Fence;
      Strip(reply) == reply
  {
    var reply := Fence + tag + "\n" + body + "\n" + Fence;
    assert reply[0] == '`' && reply[|reply| - 1] == '`';
    StripUnique(reply, 0, |reply|);
  }

  /** The two leading-fence tests on a fenced reply remove "```" and, when
      the tag starts with "sql", those three letters too. */
  lemma {:induction false} LeadingFence(tag: string, body: string)
    requires '`' !in tag && '\n' !in tag
    ensures DropPrefix(DropPrefix(Fence + tag + "\n" + body + "\n" + Fence, SqlFence), Fence)
      == TagRest(tag) + "\n" + body + "\n" + Fence
  {
    var tail := "\n" + body + "\n" + Fence;
    var reply := Fence + tag + tail;
    assert reply == Fence + tag + "\n" + body + "\n" + Fence;
    if StartsWith(tag, "sql") {
      SqlTagDropped(tag, tail);
    } else {
      OtherTagKept(tag, tail);
    }
  }

  lemma {:induction false} SqlTagDropped(tag: string, tail: string)
    requires '`' !in tag && StartsWith(tag, "sql") && tail != [] && tail[0] != '`'
    ensures DropPrefix(DropPrefix(Fence + tag + tail, SqlFence), Fence) == tag[3..] + tail
  {
    var reply := Fence + tag + tail;
    assert reply[..6] == SqlFence;
    var a := reply[6..];
    assert a == tag[3..] + tail;
    if |tag| > 3 {
      assert a[0] == tag[3] && tag[3] in tag;
    }
    assert a[0] != '`';
    assert !StartsWith(a, Fence);
  }

  lemma {:induction false} OtherTagKept(tag: string, tail: string)
    requires !StartsWith(tag, "sql") && tail != [] && tail[0] == '\n' && '\n' !in tag
    ensures DropPrefix(DropPrefix(Fence + tag + tail, SqlFence), Fence) == tag + tail
  {
    var reply := Fence + tag + tail;
    if |tag| >= 3 {
      assert reply[3..6] == tag[..3];
    } else if |reply| >= 6 {
      assert reply[3 + |tag|] == '\n';
      assert reply[..6][3 + |tag|] == reply[3 + |tag|];
    }
    assert !StartsWith(reply, SqlFence);
    assert reply[..3] == Fence;
    assert reply[3..] == tag + tail;
  }

  lemma {:induction false} TagRestAvoids(tag: string, c: char)
    requires c !in tag
    ensures c !in TagRest(tag)
  {
    if StartsWith(tag, "sql") {
      assert forall k :: 0 <= k < |tag| - 3 ==> TagRest(tag)[k] == tag[k + 3];
    }
  }

  lemma {:induction false} TagRestClean(tag: string)
    requires !IsNoise(tag)
    ensures !IsNoise(TagRest(tag))
  {
    if StartsWith(tag, "sql") {
      if Contains(tag[3..], "--") { ContainsInSuffix(tag, 3, "--"); }
      if Contains(tag[3..], "YOUR_") { ContainsInSuffix(tag, 3, "YOUR_"); }
    }
  }

  /** The fence tests on a fenced reply leave the tag's rest and the body,
      each followed by a newline. */
  lemma {:induction false} UnfenceFenced(tag: string, body: string)
    requires '`' !in tag && '\n' !in tag
    ensures Unfence(Fence + tag + "\n" + body + "\n" + Fence)
      == TagRest(tag) + "\n" + body + "\n"
  {
    LeadingFence(tag, body);
    var inner := TagRest(tag) + "\n" + body + "\n";
    var a := inner + Fence;
    assert a[|a| - 3..] == Fence;
    assert a[..|a| - 3] == inner;
  }

  /** The lines of a fenced reply, once the fences are gone: the tag's rest,
      the body's lines and an empty last line, none of them noise. */
  lemma {:induction false} FencedLines(tag: string, lines: seq<string>)
    requires '\n' !in tag && !IsNoise(tag)
    requires |lines| >= 1
    requires forall k :: 0 <= k < |lines| ==> '\n' !in lines[k] && !IsNoise(lines[k])
    ensures var inner := TagRest(tag) + "\n" + Join(lines, "\n") + "\n";
      Join(CleanLines(Split(inner, '\n')), "\n") == inner
  {
    var rest := TagRest(tag);
    var body := Join(lines, "\n");
    var all := [rest] + lines + [""];
    assert all[1..] == lines + [""];
    JoinSnoc(lines, "", "\n");
    assert Join(all, "\n") == rest + "\n" + body + "\n";
    TagRestAvoids(tag, '\n');
    TagRestClean(tag);
    MissingFirstLetter("", "--");
    MissingFirstLetter("", "YOUR_");
    assert forall k :: 1 <= k < |all| - 1 ==> all[k] == lines[k - 1];
    SplitJoin(all, '\n');
    CleanLinesOfCleanText(all);
  }

  /** `Sanitize` as its four stages. */
  lemma SanitizeStages(reply: string, stripped: string, unfenced: string, joined: string)
    requires Strip(reply) == stripped && Unfence(stripped) == unfenced
    requires Join(CleanLines(Split(unfenced, '\n')), "\n") == joined
    ensures Sanitize(reply) == Strip(joined)
  {
  }

  lemma SanitizeFencedStages(tag: string, lines: seq<string>)
    requires '`' !in tag && '\n' !in tag && !IsNoise(tag)
    requires |lines| >= 1
    requires forall k :: 0 <= k < |lines| ==> '\n' !in lines[k] && !IsNoise(lines[k])
    ensures Sanitize(Fence + tag + "\n" + Join(lines, "\n") + "\n" + Fence)
      == Strip(TagRest(tag) + "\n" + Join(lines, "\n") + "\n")
  {
    var body := Join(lines, "\n");
    var reply := Fence + tag + "\n" + body + "\n" + Fence;
    var inner := TagRest(tag) + "\n" + body + "\n";
    FencedReplyIsStripped(tag, body);
    UnfenceFenced(tag, body);
    FencedLines(tag, lines);
    SanitizeStages(reply, reply, inner, inner);
  }

  lemma StripTrailingNewline(s: string)
    ensures Strip(s + "\n") == Strip(s)
  {
    StripPadded([], s, "\n");
    assert [] + s + "\n" == s + "\n";
  }

  /** A reply fenced as "```" + tag on its own line, then clean lines, then a
      closing "```" comes back as what the fence test leaves of the tag and
      the lines, stripped. */
  lemma SanitizeFenced(tag: string, lines: seq<string>)
    requires '`' !in tag && '\n' !in tag && !IsNoise(tag)
    requires |lines| >= 1
    requires forall k :: 0 <= k < |lines| ==> '\n' !in lines[k] && !IsNoise(lines[k])
    ensures Sanitize(Fence + tag + "\n" + Join(lines, "\n") + "\n" + Fence)
      == Strip(TagRest(tag) + "\n" + Join(lines, "\n"))
  {
    SanitizeFencedStages(tag, lines);
    StripTrailingNewline(TagRest(tag) + "\n" + Join(lines, "\n"));
  }

  /** The reply "```sql\n" + q + "\n```" for a single clean, stripped line q
      sanitizes to exactly q; so "```sql\nSELECT 1;\n```" gives "SELECT 1;". */
  lemma SanitizeSqlFenced(q: string)
    requires '\n' !in q && !IsNoise(q) && Strip(q) == q
    ensures Sanitize(Fence + "sql" + "\n" + q + "\n" + Fence) == q
  {
    SqlTag("sql");
    SanitizeOneLine("sql", q);
  }

  /** A fenced single line under a tag the fence test removes entirely. */
  lemma SanitizeOneLine(tag: string, q: string)
    requires '`' !in tag && '\n' !in tag && !IsNoise(tag) && TagRest(tag) == []
    requires '\n' !in q && !IsNoise(q) && Strip(q) == q
    ensures Sanitize(Fence + tag + "\n" + q + "\n" + Fence) == q
  {
    SanitizeFenced(tag, [q]);
    OneLineRest(tag, q);
  }

  lemma OneLineRest(tag: string, q: string)
    requires TagRest(tag) == [] && Strip(q) == q
    ensures Strip(TagRest(tag) + "\n" + Join([q], "\n")) == q
  {
    assert Join([q], "\n") == q;
    assert TagRest(tag) + "\n" + q == "\n" + q + [];
    StripPadded("\n", q, []);
  }

  lemma SqlTag(tag: string)
    requires tag == "sql"
    ensures '`' !in tag && '\n' !in tag && !IsNoise(tag) && StartsWith(tag, "sql") && TagRest(tag) == []
  {
    NoiseFree(tag);
  }

  /** The reply "```sql\nSELECT 1;\n```" sanitizes to exactly "SELECT 1;". */
  lemma SanitizeSelectOne(q: string)
    requires q == "SELECT 1;"
    ensures Sanitize(Fence + "sql" + "\n" + q + "\n" + Fence) == "SELECT 1;"
  {
    NoiseFree(q);
    StripUnique(q, 0, |q|);
    SanitizeSqlFenced(q);
  }

  /** A tag other than the lower-case "sql" stays in the text: the reply
      "```" + tag + "\n" + q + "\n```" comes back as tag + "\n" + q. */
  lemma SanitizeOtherTag(tag: string, q: string)
    requires tag != [] && !IsSpace(tag[0]) && !StartsWith(tag, "sql")
    requires '`' !in tag && '\n' !in tag && !IsNoise(tag)
    requires q != [] && '\n' !in q && !IsNoise(q) && Strip(q) == q
    ensures Sanitize(Fence + tag + "\n" + q + "\n" + Fence) == tag + "\n" + q
  {
    SanitizeFenced(tag, [q]);
    StripAfterTag(tag, q);
  }

  /** So the upper-case tag is not recognised: "```SQL\n" + q + "\n```" loses
      only its backticks and keeps "SQL" as a first line. */
  lemma SanitizeUpperCaseTag(q: string)
    requires q != [] && '\n' !in q && !IsNoise(q) && Strip(q) == q
    ensures Sanitize(Fence + "SQL" + "\n" + q + "\n" + Fence) == "SQL" + "\n" + q
  {
    UpperTag("SQL");
    SanitizeOtherTag("SQL", q);
  }

  lemma UpperTag(tag: string)
    requires tag == "SQL"
    ensures tag != [] && !IsSpace(tag[0]) && !StartsWith(tag, "sql")
    ensures '`' !in tag && '\n' !in tag && !IsNoise(tag)
  {
    NoiseFree(tag);
    assert !StartsWith(tag, "sql") by { assert tag[0] != "sql"[0]; }
  }

  lemma StripAfterTag(tag: string, q: string)
    requires tag != [] && !IsSpace(tag[0]) && q != [] && Strip(q) == q
    ensures Strip(tag + "\n" + q) == tag + "\n" + q
  {
    var out := tag + "\n" + q;
    var i, j := StripSpan(q);
    assert q[|q| - 1] == q[i..j][|q| - 1];
    assert out[0] == tag[0] && out[|out| - 1] == q[|q| - 1];
    assert out[..0] == [] && out[|out|..] == [];
    StripUnique(out, 0, |out|);
  }

  lemma NoiseFree(s: string)
    requires '-' !in s && 'Y' !in s
    ensures !IsNoise(s)
  {
    MissingFirstLetter(s, "--");
    MissingFirstLetter(s, "YOUR_");
  }

  /** The fence tests on a doubly fenced reply remove the outer layer only. */
  lemma {:induction false} UnfenceDoubled(inner: string, reply: string)
    requires |inner| >= 6 && inner[..6] == SqlFence && inner[|inner| - 1] == '`'
    requires reply == Fence + inner + Fence
    ensures Strip(reply) == reply && Unfence(reply) == inner
  {
    assert reply[0] == '`' && reply[|reply| - 1] == '`';
    StripUnique(reply, 0, |reply|);
    assert reply[0..|reply|] == reply;
    assert reply[3] == inner[0] == '`' && SqlFence[3] == 's';
    assert reply[..3] == Fence && reply[3..] == inner + Fence;
    assert (inner + Fence)[..|inner|] == inner;
  }

  lemma JoinThree(a: string, b: string, c: string, sep: string)
    ensures Join([a, b, c], sep) == a + sep + b + sep + c
  {
    assert [a, b, c][1..] == [b, c] && [b, c][1..] == [c];
    assert Join([b, c], sep) == b + sep + c;
    assert Join([a, b, c], sep) == a + sep + (b + sep + c);
  }

  /** The fence lines carry no noise. */
  lemma FencesClean()
    ensures '\n' !in SqlFence && '\n' !in Fence && !IsNoise(SqlFence) && !IsNoise(Fence)
  {
    NoiseFree(SqlFence);
    NoiseFree(Fence);
  }

  /** The lines of "```sql\n" + q + "\n```" are all kept and rejoin to it. */
  lemma {:induction false} InnerFenceLines(q: string, inner: string)
    requires '\n' !in q && !IsNoise(q)
    requires inner == SqlFence + "\n" + q + "\n" + Fence
    ensures Join(CleanLines(Split(inner, '\n')), "\n") == inner
  {
    var parts := [SqlFence, q, Fence];
    JoinThree(SqlFence, q, Fence, "\n");
    FencesClean();
    SplitJoin(parts, '\n');
    CleanLinesOfCleanText(parts);
  }

  /** A doubled fence loses one layer only: "``````sql\n" + q + "\n``````"
      sanitizes to "```sql\n" + q + "\n```", which sanitizes again to q.
      So sanitizing is not idempotent. */
  lemma DoubleFenceLosesOneLayer(q: string)
    requires '\n' !in q && !IsNoise(q) && Strip(q) == q
    ensures Sanitize(Fence + SqlFence + "\n" + q + "\n" + Fence + Fence)
      == SqlFence + "\n" + q + "\n" + Fence
    ensures Sanitize(Sanitize(Fence + SqlFence + "\n" + q + "\n" + Fence + Fence))
      != Sanitize(Fence + SqlFence + "\n" + q + "\n" + Fence + Fence)
  {
    var inner := SqlFence + "\n" + q + "\n" + Fence;
    var reply := Fence + inner + Fence;
    assert reply == Fence + SqlFence + "\n" + q + "\n" + Fence + Fence;
    InnerFenceShape(q, inner);
    UnfenceDoubled(inner, reply);
    InnerFenceLines(q, inner);
    SanitizeStages(reply, reply, inner, inner);
    SanitizeSqlFenced(q);
  }

  lemma {:induction false} InnerFenceShape(q: string, inner: string)
    requires inner == SqlFence + "\n" + q + "\n" + Fence
    ensures |inner| >= 6 && inner[..6] == SqlFence && inner[|inner| - 1] == '`'
    ensures Strip(inner) == inner && inner == Fence + "sql" + "\n" + q + "\n" + Fence
    ensures |inner| > |q|
  {
    assert inner[..6] == SqlFence;
    assert inner[0] == '`' && inner[|inner| - 1] == '`';
    StripUnique(inner, 0, |inner|);
    assert inner[0..|inner|] == inner;
  }
}
