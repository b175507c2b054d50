/** The rewrite of `/etc/hosts` done by `update_hosts_file`: drop the section
    the blocker manages, build two null-address entries per website that needs
    blocking now, and append a freshly delimited section when there are any.

    The managed section is recognised by marker substrings. Any line that
    contains the start marker opens it, any line that contains the end marker
    closes it, and both kinds of marker line, as well as every line between
    them, are dropped. All other lines are foreign content and are kept. */
module Hosts {
  import opened Wrappers
  import opened Schedule
  import opened Lines

  const StartMarker: string := "## ARCHBLOCKER START"
  const EndMarker: string := "## ARCHBLOCKER END"

  /** The one string appended to open the section: a newline, then the start
      marker line. */
  const Opener: string := "\n## ARCHBLOCKER START\n"
  const Closer: string := "## ARCHBLOCKER END\n"

  /** The start marker as a line of its own, the way it is read back. */
  const StartLine: string := "## ARCHBLOCKER START\n"

  predicate Opens(line: string) { Contains(line, StartMarker) }
  predicate Closes(line: string) { Contains(line, EndMarker) }
  predicate IsMarker(line: string) { Opens(line) || Closes(line) }

  // ---------------------------------------------------------------------------
  // Stripping the old section

  /** Line `j` opened a section that is still open just before line `i`: no
      marker line stands between them. */
  ghost predicate OpenedAt(lines: seq<string>, j: int, i: int) {
    0 <= j < i <= |lines| && Opens(lines[j]) && forall k :: j < k < i ==> !IsMarker(lines[k])
  }

  /** The lines before index `i` leave a section open. */
  ghost predicate InBlockAt(lines: seq<string>, i: int) {
    exists j :: OpenedAt(lines, j, i)
  }

  /** Line `i` is foreign content: not a marker line and not inside a section. */
  ghost predicate Kept(lines: seq<string>, i: int)
    requires 0 <= i < |lines|
  {
    !IsMarker(lines[i]) && !InBlockAt(lines, i)
  }

  /** The foreign lines among the first `n`, in their original order. */
  ghost function KeptUpTo(lines: seq<string>, n: nat): seq<string>
    requires n <= |lines|
  {
    if n == 0 then []
    else KeptUpTo(lines, n - 1) + (if Kept(lines, n - 1) then [lines[n - 1]] else [])
  }

  ghost function KeptLines(lines: seq<string>): seq<string> {
    KeptUpTo(lines, |lines|)
  }

  /** How one line moves the "inside a section" state: a start-marker line
      opens, otherwise an end-marker line closes, any other line leaves the
      state as it was. */
  lemma InBlockStep(lines: seq<string>, i: int)
    requires 0 <= i < |lines|
    ensures InBlockAt(lines, i + 1) ==
              if Opens(lines[i]) then true
              else if Closes(lines[i]) then false
              else InBlockAt(lines, i)
  {
    if Opens(lines[i]) {
      assert OpenedAt(lines, i, i + 1);
    } else if Closes(lines[i]) {
    } else {
      if InBlockAt(lines, i + 1) {
        var j :| OpenedAt(lines, j, i + 1);
        assert OpenedAt(lines, j, i);
      }
      if InBlockAt(lines, i) {
        var j :| OpenedAt(lines, j, i);
        assert OpenedAt(lines, j, i + 1);
      }
    }
  }

  /** The loop of `update_hosts_file` that copies the current hosts lines
      into `new_content`, skipping the old managed section. */
  method StripManagedSection(hostsContent: seq<string>) returns (newContent: seq<string>)
    ensures newContent == KeptLines(hostsContent)
  {
    newContent := [];
    var inBlock := false;
    for i := 0 to |hostsContent|
      invariant inBlock == InBlockAt(hostsContent, i)
      invariant newContent == KeptUpTo(hostsContent, i)
    {
      var line := hostsContent[i];
      InBlockStep(hostsContent, i);
      if Contains(line, StartMarker) {
        inBlock := true;
        continue;
      }
      if Contains(line, EndMarker) {
        inBlock := false;
        continue;
      }
      if !inBlock {
        newContent := newContent + [line];
      }
    }
  }

  /** A line survives stripping exactly when it is foreign content. */
  lemma {:induction false} KeptUpToMembers(lines: seq<string>, n: nat)
    requires n <= |lines|
    ensures forall x :: x in KeptUpTo(lines, n) <==> exists i :: 0 <= i < n && lines[i] == x && Kept(lines, i)
  {
    if n > 0 {
      KeptUpToMembers(lines, n - 1);
    }
  }

  /** What stripping keeps: lines of the input, none of which holds a marker. */
  lemma KeptLinesMembers(lines: seq<string>)
    ensures forall x :: x in KeptLines(lines) <==> exists i :: 0 <= i < |lines| && lines[i] == x && Kept(lines, i)
    ensures forall x :: x in KeptLines(lines) ==> x in lines && !Opens(x) && !Closes(x)
    ensures |KeptLines(lines)| <= |lines|
  {
    KeptUpToMembers(lines, |lines|);
    KeptUpToLength(lines, |lines|);
  }

  lemma {:induction false} KeptUpToLength(lines: seq<string>, n: nat)
    requires n <= |lines|
    ensures |KeptUpTo(lines, n)| <= n
  {
    if n > 0 {
      KeptUpToLength(lines, n - 1);
    }
  }

  /** Before the first marker line everything is kept, in order. */
  lemma {:induction false} KeptBeforeMarkers(lines: seq<string>, m: nat, n: nat)
    requires n <= m <= |lines|
    requires forall i :: 0 <= i < m ==> !IsMarker(lines[i])
    ensures !InBlockAt(lines, n) && KeptUpTo(lines, n) == lines[..n]
  {
    if n > 0 {
      KeptBeforeMarkers(lines, m, n - 1);
      InBlockStep(lines, n - 1);
      assert lines[..n] == lines[..n - 1] + [lines[n - 1]];
    }
  }

  /** After a start-marker line and up to the next marker line nothing is kept. */
  lemma {:induction false} KeptInsideSection(lines: seq<string>, m: nat, n: nat)
    requires m < n <= |lines|
    requires Opens(lines[m])
    requires forall i :: m < i < n ==> !IsMarker(lines[i])
    ensures InBlockAt(lines, n) && KeptUpTo(lines, n) == KeptUpTo(lines, m)
  {
    InBlockStep(lines, n - 1);
    if n > m + 1 {
      KeptInsideSection(lines, m, n - 1);
    }
  }

  /** Input without marker lines comes back unchanged. */
  lemma UnmarkedUnchanged(lines: seq<string>)
    requires forall i :: 0 <= i < |lines| ==> !IsMarker(lines[i])
    ensures KeptLines(lines) == lines
  {
    KeptBeforeMarkers(lines, |lines|, |lines|);
  }

  /** Stripping twice is stripping once. */
  lemma StripTwice(lines: seq<string>)
    ensures KeptLines(KeptLines(lines)) == KeptLines(lines)
  {
    KeptLinesMembers(lines);
    var kept := KeptLines(lines);
    assert forall i :: 0 <= i < |kept| ==> kept[i] in kept;
    UnmarkedUnchanged(kept);
  }

  /** A delimited section appended after marker-free lines is dropped whole,
      and the lines before it are kept. */
  lemma {:induction false} SectionStripped(foreign: seq<string>, body: seq<string>)
    requires forall i :: 0 <= i < |foreign| ==> !IsMarker(foreign[i])
    requires forall i :: 0 <= i < |body| ==> !IsMarker(body[i])
    ensures KeptLines(foreign + [StartLine] + body + [Closer]) == foreign
  {
    MarkerLines();
    DelimitedSectionStripped(foreign, StartLine, body, Closer);
  }

  lemma {:induction false} DelimitedSectionStripped(foreign: seq<string>, opener: string, body: seq<string>, closer: string)
    requires forall i :: 0 <= i < |foreign| ==> !IsMarker(foreign[i])
    requires forall i :: 0 <= i < |body| ==> !IsMarker(body[i])
    requires Opens(opener) && Closes(closer)
    ensures KeptLines(foreign + [opener] + body + [closer]) == foreign
  {
    var lines := foreign + [opener] + body + [closer];
    var f := |foreign|;
    assert lines[..f] == foreign;
    assert lines[f] == opener && lines[|lines| - 1] == closer;
    assert forall i :: f < i < |lines| - 1 ==> lines[i] == body[i - f - 1];
    KeptBeforeMarkers(lines, f, f);
    KeptInsideSection(lines, f, |lines| - 1);
  }

  /** Which of the fixed strings hold a marker. */
  lemma MarkerLines()
    ensures Opens(StartLine) && Opens(Opener) && Closes(Closer)
    ensures !IsMarker("\n")
  {
    assert StartMarker <= StartLine;
    assert EndMarker <= Closer;
    assert Opener[1..] == StartLine;
    assert !(StartMarker <= "\n") && !(EndMarker <= "\n");
    assert "\n"[1..] == [];
    assert !Contains([], StartMarker) && !Contains([], EndMarker);
  }

  /** A line without '#' cannot hold either marker. */
  lemma NoHashNoMarker(line: string)
    requires '#' !in line
    ensures !IsMarker(line)
  {
    if Opens(line) { ContainsFirstChar(line, StartMarker); }
    if Closes(line) { ContainsFirstChar(line, EndMarker); }
  }

  // ---------------------------------------------------------------------------
  // Building the new section

  /** `f'0.0.0.0 {host}\n'`. */
  function HostsEntry(host: string): string {
    "0.0.0.0 " + host + "\n"
  }

  /** The urls of the websites that `check_block_needed` blocks now, in list order. */
  function BlockedUrls(websites: seq<Website>, now: Clock): (urls: seq<string>)
    ensures |urls| <= |websites|
  {
    if websites == [] then []
    else
      var site := websites[|websites| - 1];
      BlockedUrls(websites[..|websites| - 1], now) +
        (if CheckBlockNeeded(site, now) then [site.url.value] else [])
  }

  /** The entries for the given urls: the bare domain, then its `www.` form. */
  function Entries(urls: seq<string>): seq<string> {
    if urls == [] then []
    else
      var url := urls[|urls| - 1];
      Entries(urls[..|urls| - 1]) + [HostsEntry(url), HostsEntry("www." + url)]
  }

  /** Exactly two entries per url, at positions 2k and 2k+1. */
  lemma {:induction false} EntriesShape(urls: seq<string>)
    ensures |Entries(urls)| == 2 * |urls|
    ensures forall k :: 0 <= k < |urls| ==>
              Entries(urls)[2 * k] == HostsEntry(urls[k]) &&
              Entries(urls)[2 * k + 1] == HostsEntry("www." + urls[k])
  {
    if urls != [] {
      EntriesShape(urls[..|urls| - 1]);
    }
  }

  /** A url is in the block list exactly when some website with that url needs blocking now. */
  lemma {:induction false} BlockedUrlsMembers(websites: seq<Website>, now: Clock)
    ensures forall u :: u in BlockedUrls(websites, now) <==>
              exists i :: 0 <= i < |websites| && CheckBlockNeeded(websites[i], now) && websites[i].url == Some(u)
  {
    if websites != [] {
      var init := websites[..|websites| - 1];
      BlockedUrlsMembers(init, now);
      assert forall i :: 0 <= i < |init| ==> init[i] == websites[i];
    }
  }

  /** The block list of a concatenation is the concatenation of the block
      lists: websites keep their relative order. */
  lemma {:induction false} BlockedUrlsAppend(a: seq<Website>, b: seq<Website>, now: Clock)
    ensures BlockedUrls(a + b, now) == BlockedUrls(a, now) + BlockedUrls(b, now)
    decreases |b|
  {
    if b == [] {
      assert a + b == a;
    } else {
      var b' := b[..|b| - 1];
      assert (a + b)[..|a + b| - 1] == a + b';
      BlockedUrlsAppend(a, b', now);
    }
  }

  /** The loop of `update_hosts_file` that extends `blocks`. */
  method BuildBlocks(websites: seq<Website>, now: Clock) returns (blocks: seq<string>)
    ensures blocks == Entries(BlockedUrls(websites, now))
    ensures |blocks| == 2 * |BlockedUrls(websites, now)|
    ensures forall k :: 0 <= k < |BlockedUrls(websites, now)| ==>
              blocks[2 * k] == HostsEntry(BlockedUrls(websites, now)[k]) &&
              blocks[2 * k + 1] == HostsEntry("www." + BlockedUrls(websites, now)[k])
  {
    blocks := [];
    for i := 0 to |websites|
      invariant blocks == Entries(BlockedUrls(websites[..i], now))
    {
      var site := websites[i];
      BlockedUrlsStep(websites, i, now);
      if CheckBlockNeeded(site, now) {
        EntriesStep(BlockedUrls(websites[..i], now), site.url.value);
        blocks := blocks + [HostsEntry(site.url.value), HostsEntry("www." + site.url.value)];
      } else {
        assert BlockedUrls(websites[..i], now) + [] == BlockedUrls(websites[..i], now);
      }
    }
    assert websites[..|websites|] == websites;
    EntriesShape(BlockedUrls(websites, now));
  }

  lemma BlockedUrlsStep(websites: seq<Website>, i: nat, now: Clock)
    requires i < |websites|
    ensures BlockedUrls(websites[..i + 1], now) ==
              BlockedUrls(websites[..i], now) +
                (if CheckBlockNeeded(websites[i], now) then [websites[i].url.value] else [])
  {
    var prefix := websites[..i + 1];
    assert prefix[..i] == websites[..i] && prefix[i] == websites[i];
  }

  lemma EntriesStep(urls: seq<string>, url: string)
    ensures Entries(urls + [url]) == Entries(urls) + [HostsEntry(url), HostsEntry("www." + url)]
  {
    assert (urls + [url])[..|urls|] == urls;
  }

  /** What is appended after the foreign lines: nothing when no url is
      blocked, otherwise the opener, the entries and the closing line. */
  function ManagedSection(urls: seq<string>): seq<string> {
    if urls == [] then [] else [Opener] + Entries(urls) + [Closer]
  }

  // ---------------------------------------------------------------------------
  // The rewrite

  /** The list `update_hosts_file` hands to `writelines`, given the lines
      `readlines` returned. */
  method RewriteHosts(hostsContent: seq<string>, websites: seq<Website>, now: Clock)
    returns (newContent: seq<string>)
    ensures newContent == KeptLines(hostsContent) + ManagedSection(BlockedUrls(websites, now))
    // nothing blocked: the foreign lines alone, and no marker anywhere
    ensures BlockedUrls(websites, now) == [] ==>
              newContent == KeptLines(hostsContent) &&
              forall line :: line in newContent ==> !Opens(line) && !Closes(line)
    // something blocked: one opener, two entries per blocked website, one closer
    ensures BlockedUrls(websites, now) != [] ==>
              |newContent| == |KeptLines(hostsContent)| + 2 * |BlockedUrls(websites, now)| + 2 &&
              newContent[|KeptLines(hostsContent)|] == Opener &&
              newContent[|newContent| - 1] == Closer
  {
    newContent := StripManagedSection(hostsContent);
    var blocks := BuildBlocks(websites, now);
    if |blocks| > 0 {
      newContent := newContent + [Opener];
      newContent := newContent + blocks;
      newContent := newContent + [Closer];
    }
    KeptLinesMembers(hostsContent);
  }

  /** What the calls around the rewrite do: the root check, `chattr -i`,
      reading the file, writing it, `chattr +i` and the DNS cache flush.
      `current` is the result of `readlines`, `None` when reading raises. */
  datatype HostsAccess = HostsAccess(
    isRoot: bool,
    unlockSucceeds: bool,
    current: Option<seq<string>>,
    writeSucceeds: bool,
    relockSucceeds: bool,
    flushSucceeds: bool)

  /** `update_hosts_file(websites)`: `ok` is its return value, `written` the
      list passed to `writelines`, if the write happened. */
  method UpdateHostsFile(access: HostsAccess, websites: seq<Website>, now: Clock)
    returns (ok: bool, written: Option<seq<string>>)
    ensures written.Some? <==>
              access.isRoot && access.unlockSucceeds && access.current.Some? && access.writeSucceeds
    ensures written.Some? ==>
              written.value == KeptLines(access.current.value) + ManagedSection(BlockedUrls(websites, now))
    ensures ok <==> written.Some? && access.relockSucceeds && access.flushSucceeds
  {
    if !access.isRoot || !access.unlockSucceeds || access.current.None? {
      return false, None;
    }
    var newContent := RewriteHosts(access.current.value, websites, now);
    if !access.writeSucceeds {
      return false, None;
    }
    written := Some(newContent);
    ok := access.relockSucceeds && access.flushSucceeds;
  }

  // ---------------------------------------------------------------------------
  // Successive rewrites

  /** The hosts file's text after one rewrite of the file holding `text`. */
  ghost function Rewritten(text: string, websites: seq<Website>, now: Clock): string {
    WriteLines(KeptLines(ReadLines(text)) + ManagedSection(BlockedUrls(websites, now)))
  }

  /** With nothing to block, a file without marker lines is written back exactly as it was. */
  lemma UnblockedRewriteKeepsText(text: string, websites: seq<Website>, now: Clock)
    requires BlockedUrls(websites, now) == []
    requires forall i :: 0 <= i < |ReadLines(text)| ==> !IsMarker(ReadLines(text)[i])
    ensures Rewritten(text, websites, now) == text
  {
    UnmarkedUnchanged(ReadLines(text));
    assert KeptLines(ReadLines(text)) + [] == ReadLines(text);
    WriteReadLines(text);
  }

  /** Read back after a rewrite that blocks something, the opener is a blank
      line followed by the start-marker line. */
  lemma {:induction false} RewrittenReadsBack(text: string, websites: seq<Website>, now: Clock)
    requires text == [] || text[|text| - 1] == '\n'
    requires BlockedUrls(websites, now) != []
    requires forall u :: u in BlockedUrls(websites, now) ==> '\n' !in u
    ensures ReadLines(Rewritten(text, websites, now)) ==
              KeptLines(ReadLines(text)) + ["\n", StartLine] + Entries(BlockedUrls(websites, now)) + [Closer]
  {
    var kept := KeptLines(ReadLines(text));
    var entries := Entries(BlockedUrls(websites, now));
    var read := kept + ["\n", StartLine] + entries + [Closer];
    assert ManagedSection(BlockedUrls(websites, now)) == [Opener] + entries + [Closer];
    assert kept + ([Opener] + entries + [Closer]) == kept + [Opener] + entries + [Closer];
    OpenerWritesAsTwoLines(kept, entries);
    KeptProper(text);
    EntriesProper(BlockedUrls(websites, now));
    SectionLinesProper(kept, entries);
    ReadWriteLines(read);
  }

  /** Writing the opener writes the same text as a blank line followed by the
      start-marker line. */
  lemma OpenerWritesAsTwoLines(kept: seq<string>, entries: seq<string>)
    ensures WriteLines(kept + [Opener] + entries + [Closer]) ==
            WriteLines(kept + ["\n", StartLine] + entries + [Closer])
  {
    assert Opener == "\n" + StartLine;
    SplitLineWrites(kept, "\n", StartLine, entries, Closer);
  }

  /** Writing one line `a + b` writes the same text as writing `a`, then `b`. */
  lemma SplitLineWrites(before: seq<string>, a: string, b: string, entries: seq<string>, last: string)
    ensures WriteLines(before + [a + b] + entries + [last]) == WriteLines(before + [a, b] + entries + [last])
  {
    var after := entries + [last];
    assert before + [a + b] + entries + [last] == before + ([a + b] + after);
    assert before + [a, b] + entries + [last] == before + ([a, b] + after);
    WriteLinesAppend(before, [a + b] + after);
    WriteLinesAppend(before, [a, b] + after);
    assert ([a + b] + after)[1..] == after;
    assert ([a, b] + after)[1..] == [b] + after;
    assert ([b] + after)[1..] == after;
  }

  /** The foreign lines of a file that ends in a newline are proper lines. */
  lemma KeptProper(text: string)
    requires text == [] || text[|text| - 1] == '\n'
    ensures forall i :: 0 <= i < |KeptLines(ReadLines(text))| ==> ProperLine(KeptLines(ReadLines(text))[i])
  {
    ReadLinesProper(text);
    KeptLinesMembers(ReadLines(text));
    var kept := KeptLines(ReadLines(text));
    assert forall i :: 0 <= i < |kept| ==> kept[i] in kept;
  }

  lemma SectionLinesProper(kept: seq<string>, entries: seq<string>)
    requires forall i :: 0 <= i < |kept| ==> ProperLine(kept[i])
    requires forall i :: 0 <= i < |entries| ==> ProperLine(entries[i])
    ensures forall i :: 0 <= i < |kept + ["\n", StartLine] + entries + [Closer]| ==>
              ProperLine((kept + ["\n", StartLine] + entries + [Closer])[i])
  {
    assert ProperLine("\n");
    assert StartLine[..|StartLine| - 1] == StartMarker;
    assert Closer[..|Closer| - 1] == EndMarker;
  }

  /** Entries for newline-free urls are proper lines. */
  lemma {:induction false} EntriesProper(urls: seq<string>)
    requires forall u :: u in urls ==> '\n' !in u
    ensures forall i :: 0 <= i < |Entries(urls)| ==> ProperLine(Entries(urls)[i])
  {
    if urls != [] {
      var url := urls[|urls| - 1];
      EntriesProper(urls[..|urls| - 1]);
      HostsEntryProper(url);
      HostsEntryProper("www." + url);
    }
  }

  lemma HostsEntryProper(host: string)
    requires '\n' !in host
    ensures ProperLine(HostsEntry(host))
  {
    var e := HostsEntry(host);
    assert e[..|e| - 1] == "0.0.0.0 " + host;
  }

  /** Entries for urls without '#' hold no marker. */
  lemma {:induction false} EntriesUnmarked(urls: seq<string>)
    requires forall u :: u in urls ==> '#' !in u
    ensures forall i :: 0 <= i < |Entries(urls)| ==> !IsMarker(Entries(urls)[i])
  {
    if urls != [] {
      var url := urls[|urls| - 1];
      EntriesUnmarked(urls[..|urls| - 1]);
      NoHashNoMarker(HostsEntry(url));
      NoHashNoMarker(HostsEntry("www." + url));
    }
  }

  /** One rewrite that blocks something adds exactly one blank line to the
      foreign content of a file that ends in a newline: the newline that
      starts the opener is read back as a line outside the section. Repeated
      rewrites therefore keep growing the file; they are not idempotent. */
  lemma {:induction false} RewriteAddsBlankLine(text: string, websites: seq<Website>, now: Clock)
    requires text == [] || text[|text| - 1] == '\n'
    requires BlockedUrls(websites, now) != []
    requires forall u :: u in BlockedUrls(websites, now) ==> '\n' !in u && '#' !in u
    ensures KeptLines(ReadLines(Rewritten(text, websites, now))) == KeptLines(ReadLines(text)) + ["\n"]
  {
    var kept := KeptLines(ReadLines(text));
    var urls := BlockedUrls(websites, now);
    RewrittenReadsBack(text, websites, now);
    var foreign := kept + ["\n"];
    Regroup(kept, "\n", StartLine, Entries(urls), Closer);
    ForeignUnmarked(ReadLines(text));
    EntriesUnmarked(urls);
    SectionStripped(foreign, Entries(urls));
  }

  lemma Regroup<T>(front: seq<T>, x: T, y: T, middle: seq<T>, z: T)
    ensures front + [x, y] + middle + [z] == (front + [x]) + [y] + middle + [z]
  {
  }

  /** The foreign lines, followed by the blank line the opener leaves, hold no marker. */
  lemma ForeignUnmarked(lines: seq<string>)
    ensures forall i :: 0 <= i < |KeptLines(lines) + ["\n"]| ==> !IsMarker((KeptLines(lines) + ["\n"])[i])
  {
    KeptLinesMembers(lines);
    MarkerLines();
    var kept := KeptLines(lines);
    assert forall i :: 0 <= i < |kept| ==> kept[i] in kept;
  }

  // ---------------------------------------------------------------------------
  // An example

  /** A website blocked 09:00-17:00 is in the block list at 10:00 ... */
  lemma OfficeHoursBlocked()
    ensures BlockedUrls([OfficeHours()], Clock(10, 0)) == ["example.com"]
  {
    assert CheckBlockNeeded(OfficeHours(), Clock(10, 0)) by {
      FormatTimeParses(9, 0);
      FormatTimeParses(17, 0);
    }
    assert [OfficeHours()][..0] == [];
  }

  /** ... and not at 18:00. */
  lemma OfficeHoursAllowed()
    ensures BlockedUrls([OfficeHours()], Clock(18, 0)) == []
  {
    assert !CheckBlockNeeded(OfficeHours(), Clock(18, 0)) by {
      FormatTimeParses(9, 0);
      FormatTimeParses(17, 0);
    }
    assert [OfficeHours()][..0] == [];
  }

  /** The two entries written for example.com. */
  lemma ExampleEntries()
    ensures Entries(["example.com"]) == ["0.0.0.0 example.com\n", "0.0.0.0 www.example.com\n"]
  {
    assert Entries(["example.com"]) == [HostsEntry("example.com"), HostsEntry("www.example.com")] by {
      assert ["example.com"][..0] == [];
      assert "www." + "example.com" == "www.example.com";
    }
    assert HostsEntry("example.com") == "0.0.0.0 example.com\n";
    assert HostsEntry("www.example.com") == "0.0.0.0 www.example.com\n";
  }

  /** example.com, blocked from 09:00 to 17:00. */
  function OfficeHours(): Website {
    Website(Some("example.com"), Some(true), Some(FormatTime(9, 0)), Some(FormatTime(17, 0)))
  }
}
