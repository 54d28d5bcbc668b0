/** When a failing `stat` ends `realpathSync`: it is asked once for each link, the first time that one is met. */
module RealpathStats {
  import opened PathSegments
  import opened PosixPath
  import opened PathRelative
  import opened Realpath

  /** The same files where every `stat` succeeds. */
  function AllReachable(fs: Fs): Fs {
    fs.(reachable := fs.entries.Keys)
  }

  /** The places of the links that the rounds meet for the first time, in order, when every `stat` succeeds. */
  function Asked(fs: Fs, done: seq<string>, todo: seq<string>, links: nat, seen: map<nat, string>): seq<string>
    decreases links, |todo|
  {
    if todo == [] then []
    else
      var at := FromRoot(done + [todo[0]]);
      if at !in fs.entries then []
      else
        match fs.entries[at]
        case Plain => Asked(fs, done + [todo[0]], todo[1..], links, seen)
        case Link(id, target) =>
          if links == 0 then []
          else
            var text := if id in seen then seen[id] else target;
            (if id in seen then [] else [at]) + Asked(fs, [], Cd(done, text) + todo[1..], links - 1, seen[id := text])
  }

  predicate IsLink(fs: Fs, at: string) {
    at in fs.entries && fs.entries[at].Link?
  }

  /** A link that has not been seen. */
  predicate IsNew(fs: Fs, at: string, seen: map<nat, string>) {
    IsLink(fs, at) && fs.entries[at].id !in seen
  }

  predicate Same(fs: Fs, a: string, b: string) {
    IsLink(fs, a) && IsLink(fs, b) && fs.entries[a].id == fs.entries[b].id
  }

  /** Links that have not been seen, each once. */
  ghost predicate NewLinks(fs: Fs, asked: seq<string>, seen: map<nat, string>) {
    && (forall i :: 0 <= i < |asked| ==> IsNew(fs, asked[i], seen))
    && (forall i, j :: 0 <= i < j < |asked| ==> !Same(fs, asked[i], asked[j]))
  }

  lemma NewApart(fs: Fs, at: string, b: string, seen: map<nat, string>, text: string)
    requires IsLink(fs, at) && IsNew(fs, b, seen[fs.entries[at].id := text])
    ensures !Same(fs, at, b) && IsNew(fs, b, seen)
  {
  }

  lemma NewFirst(fs: Fs, at: string, rest: seq<string>, seen: map<nat, string>, text: string)
    requires IsLink(fs, at) && NewLinks(fs, rest, seen[fs.entries[at].id := text])
    ensures fs.entries[at].id !in seen ==> NewLinks(fs, [at] + rest, seen)
    ensures NewLinks(fs, [] + rest, seen)
  {
    hide Same, IsNew;
    assert [] + rest == rest;
    forall i | 0 <= i < |rest| ensures !Same(fs, at, rest[i]) && IsNew(fs, rest[i], seen) {
      NewApart(fs, at, rest[i], seen, text);
    }
    if fs.entries[at].id !in seen {
      assert IsNew(fs, at, seen) by { IsNewHere(fs, at, seen); }
    }
  }

  lemma IsNewHere(fs: Fs, at: string, seen: map<nat, string>)
    requires IsLink(fs, at) && fs.entries[at].id !in seen
    ensures IsNew(fs, at, seen)
  {
  }

  /** No link is asked for twice, nor is one that has been seen. */
  lemma {:induction false} AskedOnce(fs: Fs, done: seq<string>, todo: seq<string>, links: nat, seen: map<nat, string>)
    ensures NewLinks(fs, Asked(fs, done, todo, links, seen), seen)
    decreases links, |todo|
  {
    hide Cd, FromRoot, NewLinks;
    if todo == [] {
      NothingNew(fs, seen);
    } else {
      var at := FromRoot(done + [todo[0]]);
      if at !in fs.entries {
        NothingNew(fs, seen);
      } else {
        match fs.entries[at]
        case Plain => AskedOnce(fs, done + [todo[0]], todo[1..], links, seen);
        case Link(id, target) =>
          if links == 0 {
            NothingNew(fs, seen);
          } else {
            var text := if id in seen then seen[id] else target;
            AskedOnce(fs, [], Cd(done, text) + todo[1..], links - 1, seen[id := text]);
            NewFirst(fs, at, Asked(fs, [], Cd(done, text) + todo[1..], links - 1, seen[id := text]), seen, text);
          }
      }
    }
  }

  lemma NothingNew(fs: Fs, seen: map<nat, string>)
    ensures NewLinks(fs, [], seen)
  {
  }

  /** The first of them whose `stat` fails, if there is one. */
  function FirstFailing(fs: Fs, asked: seq<string>): (k: nat)
    ensures k <= |asked| && (k < |asked| ==> asked[k] !in fs.reachable)
    ensures forall j :: 0 <= j < k ==> asked[j] in fs.reachable
  {
    if asked == [] || asked[0] !in fs.reachable then 0 else 1 + FirstFailing(fs, asked[1..])
  }

  /** The rounds end at the first link asked for whose `stat` fails, and as if all succeeded when there is none. */
  lemma {:induction false} StatsDecide(fs: Fs, done: seq<string>, todo: seq<string>, links: nat, seen: map<nat, string>)
    ensures var asked := Asked(fs, done, todo, links, seen);
            var k := FirstFailing(fs, asked);
            Rounds(fs, done, todo, links, seen) ==
            if k < |asked| then Unreachable(asked[k]) else Rounds(AllReachable(fs), done, todo, links, seen)
    decreases links, |todo|
  {
    hide Cd, FromRoot, FirstFailing;
    if todo == [] {
      NoneFails(fs);
    } else {
      var at := FromRoot(done + [todo[0]]);
      if at !in fs.entries {
        NoneFails(fs);
      } else {
        match fs.entries[at]
        case Plain => StatsDecide(fs, done + [todo[0]], todo[1..], links, seen);
        case Link(id, target) =>
          if links == 0 {
            NoneFails(fs);
          } else {
            var text := if id in seen then seen[id] else target;
            var rest := Asked(fs, [], Cd(done, text) + todo[1..], links - 1, seen[id := text]);
            StatsDecide(fs, [], Cd(done, text) + todo[1..], links - 1, seen[id := text]);
            if id in seen {
              assert [] + rest == rest;
            } else {
              FirstThen(fs, at, rest);
            }
          }
      }
    }
  }

  lemma NoneFails(fs: Fs)
    ensures FirstFailing(fs, []) == 0
  {
  }

  lemma FirstThen(fs: Fs, at: string, rest: seq<string>)
    ensures FirstFailing(fs, [at] + rest) == if at in fs.reachable then 1 + FirstFailing(fs, rest) else 0
  {
    assert ([at] + rest)[1..] == rest;
  }
}
