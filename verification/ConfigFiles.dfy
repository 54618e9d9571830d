/** Saving and loading the configuration: the file, its staged successor and its backup,
    with every state of the disk that a crash could leave behind. */
module ConfigFiles {
  import opened Common
  import opened Config
  import opened Text

  /** The contents of config.toml, config.toml.tmp and config.toml.bak, where they exist. */
  datatype Disk = Disk(primary: Option<string>, tmp: Option<string>, bak: Option<string>)

  predicate Usable(file: Option<string>) {
    file.Some? && file.value != ""
  }

  /** The content that a load will parse: the primary, after a backup was restored over a
      missing or empty one. */
  function ReadBack(d: Disk): Option<string> {
    if !Usable(d.primary) && Usable(d.bak) then d.bak else d.primary
  }

  /** A load finds what it would have found before, or the new content. */
  predicate OldOrNew(before: Disk, content: string, d: Disk) {
    ReadBack(d) == ReadBack(before) || ReadBack(d) == Some(content)
  }

  /** The states in which saving over the primary is safe: it is not an empty file that
      hides a backup. */
  predicate SafeToSave(d: Disk) {
    !(d.primary == Some("") && Usable(d.bak))
  }

  predicate Contains(s: string, part: string) {
    part <= s || (s != "" && Contains(s[1..], part))
  }

  lemma {:induction false} ContainsIff(s: string, part: string)
    ensures Contains(s, part) <==> exists k :: 0 <= k <= |s| && part <= s[k..]
  {
    if part <= s {
      assert s[0..] == s;
    }
    if s != "" {
      ContainsIff(s[1..], part);
      if k :| 0 <= k <= |s| && part <= s[k..] && k > 0 {
        assert s[1..][k - 1..] == s[k..];
      }
      if k :| 0 <= k <= |s[1..]| && part <= s[1..][k..] {
        assert s[k + 1..] == s[1..][k..];
      }
    }
  }

  function FirstOf(s: string, n: nat): (r: string)
    ensures r <= s && |r| == if n <= |s| then n else |s|
  {
    if n <= |s| then s[..n] else s
  }

  /** The disk after a completed save. The backup is best effort: it may not have begun
      (copied is None) or may have stopped after some characters. */
  function Saved(before: Disk, content: string, copied: Option<nat>): Disk {
    Disk(Some(content), None,
         if before.primary.Some? && copied.Some? then Some(FirstOf(before.primary.value, copied.value)) else before.bak)
  }

  /** The check save makes before it touches the disk. */
  predicate Acceptable(content: string) {
    Trim(content) != "" && Contains(content, "[network]") && Contains(content, "[security]")
  }

  lemma AcceptableIsNotEmpty(content: string)
    requires Acceptable(content)
    ensures content != ""
  {
  }

  /** So a content is saved exactly if the names of both sections stand in it somewhere: it is
      not blank then. */
  lemma AcceptableIff(content: string)
    ensures Acceptable(content) <==>
            && (exists k :: 0 <= k <= |content| && "[network]" <= content[k..])
            && (exists k :: 0 <= k <= |content| && "[security]" <= content[k..])
  {
    ContainsIff(content, "[network]");
    ContainsIff(content, "[security]");
    if k :| 0 <= k <= |content| && "[network]" <= content[k..] {
      var before, after := TrimTakes(content);
      assert content[k] == content[k..][0] == '[';
      assert Trim(content) == "" ==> content == before + after;
    }
  }

  class Files {
    var primary: Option<string>
    var tmp: Option<string>
    var bak: Option<string>
    /** Every state the disk has been in, the present one last. */
    ghost var history: seq<Disk>

    ghost function View(): Disk
      reads this
    {
      Disk(primary, tmp, bak)
    }

    constructor (d: Disk)
      ensures View() == d && history == [d]
    {
      primary, tmp, bak := d.primary, d.tmp, d.bak;
      history := [d];
    }

    /** The states since a point in the history. */
    ghost function Since(from: nat): seq<Disk>
      requires from <= |history|
      reads this
    {
      history[from..]
    }

    /** Creates the staged file and writes it piece by piece. */
    method WriteTmp(content: string)
      modifies `tmp, `history
      ensures tmp == Some(content) && old(history) <= history
      ensures forall k :: |old(history)| <= k < |history| ==>
                history[k].primary == primary && history[k].bak == bak
    {
      tmp := Some("");
      history := history + [View()];
      for i := 0 to |content|
        invariant tmp == Some(content[..i]) && old(history) <= history
        invariant forall k :: |old(history)| <= k < |history| ==>
                    history[k].primary == primary && history[k].bak == bak
      {
        tmp := Some(content[..i + 1]);
        history := history + [View()];
      }
      assert content[..|content|] == content;
    }

    /** Creates the backup and copies the primary into it, or only n characters of it. */
    method CopyToBak(n: nat)
      requires primary.Some?
      modifies `bak, `history
      ensures bak == Some(FirstOf(primary.value, n))
      ensures |old(history)| < |history| && old(history) <= history
      ensures history[|old(history)|] == View().(bak := Some(""))
      ensures forall k :: |old(history)| <= k < |history| ==>
                history[k].primary == primary && history[k].bak.Some? && history[k].bak.value <= primary.value
    {
      bak := Some("");
      history := history + [View()];
      for i := 0 to |FirstOf(primary.value, n)|
        invariant bak == Some(primary.value[..i])
        invariant |old(history)| < |history| && old(history) <= history
        invariant history[|old(history)|] == View().(bak := Some(""))
        invariant forall k :: |old(history)| <= k < |history| ==>
                    history[k].primary == primary && history[k].bak.Some? && history[k].bak.value <= primary.value
      {
        bak := Some(primary.value[..i + 1]);
        history := history + [View()];
      }
      assert primary.value[..|primary.value|] == primary.value;
    }

    /** Saves a content: stage, back up, replace.

        Each state on the way reads back as the old content or as the new one, if and only
        if saving is safe where it starts, or the backup never begins. */
    method Save(content: string, copied: Option<nat>) returns (saved: bool)
      modifies this
      ensures saved == Acceptable(content) && old(history) <= history
      ensures !saved ==> View() == old(View()) && history == old(history)
      ensures saved ==> View() == Saved(old(View()), content, copied)
      ensures saved ==> primary == Some(content) && tmp == None
      ensures saved ==> bak == if old(primary).Some? && copied.Some?
                               then Some(FirstOf(old(primary).value, copied.value)) else old(bak)
      ensures saved && copied.Some? ==>
                ((forall k :: |old(history)| <= k < |history| ==> OldOrNew(old(View()), content, history[k]))
                 <==> SafeToSave(old(View())))
      ensures saved && copied.None? ==>
                forall k :: |old(history)| <= k < |history| ==> OldOrNew(old(View()), content, history[k])
    {
      if !Acceptable(content) {
        return false;
      }
      AcceptableIsNotEmpty(content);
      ghost var before := View();
      ghost var start := |history|;
      WriteTmp(content);
      ghost var staged := |history|;
      if primary.Some? && copied.Some? {
        CopyToBak(copied.value);
        assert SafeToSave(before) ==> forall k :: start <= k < |history| ==> OldOrNew(before, content, history[k]);
        assert !SafeToSave(before) ==> !OldOrNew(before, content, history[staged]);
      }
      primary, tmp := tmp, None;
      history := history + [View()];
      assert before.primary.Some? && copied.Some? && !SafeToSave(before) ==>
          !OldOrNew(before, content, history[staged]);
      return true;
    }

    /** Restores the backup over the primary, directly and not by way of a staged file: a
        crash on the way can leave a torn primary, unless the backup is a single character. */
    method Restore()
      requires Usable(bak) && !Usable(primary)
      modifies `primary, `history
      ensures primary == bak && old(history) <= history
      ensures (forall k :: |old(history)| <= k < |history| ==> ReadBack(history[k]) == bak) <==> |bak.value| == 1
    {
      ghost var start := |history|;
      primary := Some("");
      history := history + [View()];
      for i := 0 to |bak.value|
        invariant primary == Some(bak.value[..i]) && old(history) <= history
        invariant |history| == start + i + 1
        invariant forall k :: start <= k <= start + i ==>
                    history[k].bak == bak && history[k].primary == Some(bak.value[..k - start])
      {
        primary := Some(bak.value[..i + 1]);
        history := history + [View()];
      }
      assert bak.value[..|bak.value|] == bak.value;
      if |bak.value| > 1 {
        assert ReadBack(history[start + 1]) == Some(bak.value[..1]) != bak;
      }
    }
  }

  /** Whatever unusable file the new one turns into after a completed save, a load reads the
      previous content, if and only if the backup was copied in full. */
  lemma BackupIsRead(before: Disk, content: string, copied: nat, lost: Option<string>)
    requires Usable(before.primary) && !Usable(lost)
    ensures ReadBack(Saved(before, content, Some(copied)).(primary := lost)) == before.primary <==>
            copied >= |before.primary.value|
  {
    var s := before.primary.value;
    assert s[..|s|] == s;
    assert copied < |s| ==> |FirstOf(s, copied)| != |s|;
  }

  // ---------- loading ----------

  /** The configuration: its peers, and the other settings as they are. */
  datatype Configuration<S> = Configuration(settings: S, peers: seq<PeerConfig>)

  /** The TOML library with the renaming of old keys before it: parsing also tells whether
      a key was renamed. */
  datatype Toml<!S(!new)> = Toml(
    parse: string -> Option<(Configuration<S>, bool)>,
    render: Configuration<S> -> string)
  {
    ghost predicate Lawful() {
      && (forall c {:trigger render(c)} :: parse(render(c)) == Some((c, false)) && Acceptable(render(c)))
      && parse("") == None
    }
  }

  /** What loading a content yields. */
  ghost predicate IsLoaded<S(!new)>(toml: Toml<S>, content: Option<string>, loaded: Option<Configuration<S>>) {
    if content.None? || toml.parse(content.value).None? then loaded == None
    else
      var (c, _) := toml.parse(content.value).value;
      loaded.Some? && loaded.value.settings == c.settings && IsDeduped(c.peers, loaded.value.peers)
  }

  /** So the configuration that was saved last but one is what loading then yields. */
  lemma PreviousIsLoaded<S(!new)>(toml: Toml<S>, before: Disk, previous: Configuration<S>, content: string,
                                  copied: nat, lost: Option<string>, loaded: Option<Configuration<S>>)
    requires toml.Lawful() && KeysDistinct(previous.peers)
    requires before.primary == Some(toml.render(previous)) && copied >= |toml.render(previous)| && !Usable(lost)
    requires IsLoaded(toml, ReadBack(Saved(before, content, Some(copied)).(primary := lost)), loaded)
    ensures loaded == Some(previous)
  {
    AcceptableIsNotEmpty(toml.render(previous));
    BackupIsRead(before, content, copied, lost);
    DedupIsIdempotent(previous.peers, loaded.value.peers);
  }

  /** Loads the configuration, after a backup was restored over a missing or empty file, and
      writes it back if a key was renamed or a peer dropped. */
  method Load<S(!new)>(files: Files, toml: Toml<S>, copied: Option<nat>) returns (loaded: Option<Configuration<S>>)
    modifies files
    ensures IsLoaded(toml, ReadBack(old(files.View())), loaded)
    ensures var d := old(files.View());
            var isLost := (d.primary.None? || d.primary == Some("")) && d.bak.Some? && d.bak != Some("");
            var content := if isLost then d.bak else d.primary;
            if content.None? || toml.parse(content.value).None?
            then loaded == None && files.View() == d.(primary := content)
            else
              var (c, renamed) := toml.parse(content.value).value;
              && loaded.Some? && loaded.value.settings == c.settings && IsDeduped(c.peers, loaded.value.peers)
              && var next := toml.render(loaded.value);
              files.View() ==
              if (renamed || |loaded.value.peers| < |c.peers|) && Acceptable(next)
              then Disk(Some(next), None, if copied.Some? then Some(FirstOf(content.value, copied.value)) else d.bak)
              else d.(primary := content)
    ensures loaded.Some? && toml.Lawful() ==> IsLoaded(toml, ReadBack(files.View()), loaded)
  {
    if !Usable(files.primary) && Usable(files.bak) {
      files.Restore();
    }
    if files.primary.None? {
      return None;
    }
    var parsed := toml.parse(files.primary.value);
    if parsed.None? {
      return None;
    }
    var (c, migrated) := parsed.value;
    var kept := Dedup(c.peers);
    loaded := Some(Configuration(c.settings, kept));
    if migrated || |kept| < |c.peers| {
      DedupIsIdempotent(c.peers, kept);
      var _ := files.Save(toml.render(loaded.value), copied);
    }
  }
}
