/** Found tweets on their way to publication: two edit queues, the marks of tweets already sent, the
    watcher that queues and marks, and the edit loop that gets, edits and deletes. */
module EditQueues {
  import opened Bytes
  import opened Records

  /** A tweet as it is queued for editing. */
  datatype Item = Item(id: Bytes, link: Bytes, text: Bytes)

  type Queue = map<Bytes, Item>

  datatype Queues = Queues(short: Queue, long: Queue, sent: set<Bytes>)

  /** The queued items in key order. */
  ghost function Listing(q: Queue): (items: seq<Item>)
    ensures |items| == |Sorted(q.Keys)|
    ensures forall i :: 0 <= i < |items| ==> Sorted(q.Keys)[i] in q && items[i] == q[Sorted(q.Keys)[i]]
  {
    assert forall i :: 0 <= i < |Sorted(q.Keys)| ==> Sorted(q.Keys)[i] in Sorted(q.Keys);
    seq(|Sorted(q.Keys)|, i requires 0 <= i < |Sorted(q.Keys)| => q[Sorted(q.Keys)[i]])
  }

  /** The first queued items. */
  ghost function Taken(q: Queue, count: nat): (items: seq<Item>)
    requires count <= |Listing(q)|
    ensures forall t :: t in items ==> t in Listing(q)
  {
    Listing(q)[..count]
  }

  predicate HasItems(q: Queue) { q != map[] }

  ghost predicate HasCount(q: Queue, count: nat) { 0 < count <= |Listing(q)| }

  function Queued(q: Queues, t: Item): Queues {
    Queues(q.short[t.id := t], q.long[t.id := t], q.sent)
  }

  function Elements(items: seq<Item>): set<Item> { set t | t in items }

  function Ids(items: seq<Item>): set<Bytes> { set t | t in items :: t.id }

  // ----- the machine: any number of watcher passes and one edit loop, interleaved -----

  /** How a commit ends: done, not done, or done with the answer lost, so that an error is reported. */
  datatype Outcome = Done | Refused | Unanswered

  /** Where a processTweet stands: with a tweet found unmarked, or with one it has queued. */
  datatype Processing = Found(item: Item) | Stored(item: Item)

  /** Where the edit loop stands. */
  datatype Editing =
    | Idle
    | GotShort(batch: seq<Item>)
    | EditedShort(batch: seq<Item>)
    | GotLong(batch: seq<Item>)
    | EditedLong(batch: seq<Item>)

  /** The queues, the passes of processTweet under way, the edit loop, and what has happened: the items
      queued, in order, and the items some successful edit of each kind was given. */
  datatype World = World(q: Queues, passes: map<nat, Processing>, editing: Editing,
                         queued: seq<Item>, shortGiven: set<Item>, longGiven: set<Item>)

  const START: World := At(Queues(map[], map[], {}))

  /** All processes at rest on the queues q. */
  function At(q: Queues): World { World(q, map[], Idle, [], {}, {}) }

  /** One transaction or call; p is the pass that makes it. A step that does not fit where its process
      stands does nothing. */
  datatype Step =
    | CheckSent(p: nat, item: Item)
    | Reject(p: nat)
    | SaveForEdit(p: nat, outcome: Outcome)
    | SaveSent(p: nat, outcome: Outcome)
    | GetShort
    | EditShort(ok: bool)
    | DeleteShort(outcome: Outcome)
    | GetLong(count: nat)
    | EditLong(ok: bool)
    | DeleteLong(outcome: Outcome)

  /** The steps of processTweet. */
  predicate OfPass(s: Step) { s.CheckSent? || s.Reject? || s.SaveForEdit? || s.SaveSent? }

  predicate OfShort(s: Step) { s.GetShort? || s.EditShort? || s.DeleteShort? }

  predicate Finds(w: World, p: nat) { p in w.passes && w.passes[p].Found? }

  predicate Stores(w: World, p: nat) { p in w.passes && w.passes[p].Stored? }

  function Marked(q: Queues, link: Bytes): Queues { q.(sent := q.sent + {link}) }

  ghost function Next(w: World, s: Step): World {
    if OfPass(s) then PassNext(w, s) else if OfShort(s) then ShortNext(w, s) else LongNext(w, s)
  }

  function PassNext(w: World, s: Step): World
    requires OfPass(s)
  {
    match s
    case CheckSent(p, item) =>
      if p !in w.passes && item.link !in w.q.sent then w.(passes := w.passes[p := Found(item)]) else w
    case Reject(p) =>
      if Finds(w, p) then w.(passes := w.passes - {p}) else w
    case SaveForEdit(p, outcome) =>
      if Finds(w, p) then Saved(w, p, outcome) else w
    case SaveSent(p, outcome) =>
      if !Stores(w, p) then w
      else w.(q := if outcome.Refused? then w.q else Marked(w.q, w.passes[p].item.link), passes := w.passes - {p})
  }

  ghost function ShortNext(w: World, s: Step): (n: World)
    requires OfShort(s)
    ensures n.q.sent == w.q.sent && n.passes == w.passes && n.queued == w.queued
  {
    match s
    case GetShort =>
      if w.editing.Idle? && HasItems(w.q.short) then w.(editing := GotShort(Listing(w.q.short))) else w
    case EditShort(ok) =>
      if !w.editing.GotShort? then w
      else if !ok then w.(editing := Idle)
      else w.(editing := EditedShort(w.editing.batch), shortGiven := w.shortGiven + Elements(w.editing.batch))
    case DeleteShort(outcome) =>
      if !w.editing.EditedShort? then w
      else if outcome.Refused? then w.(editing := Idle)
      else w.(q := w.q.(short := w.q.short - Ids(w.editing.batch)), editing := Idle)
  }

  ghost function LongNext(w: World, s: Step): (n: World)
    requires !OfPass(s) && !OfShort(s)
    ensures n.q.sent == w.q.sent && n.passes == w.passes && n.queued == w.queued
  {
    match s
    case GetLong(count) =>
      if w.editing.Idle? && HasCount(w.q.long, count) then w.(editing := GotLong(Taken(w.q.long, count))) else w
    case EditLong(ok) =>
      if !w.editing.GotLong? then w
      else if !ok then w.(editing := Idle)
      else w.(editing := EditedLong(w.editing.batch), longGiven := w.longGiven + Elements(w.editing.batch))
    case DeleteLong(outcome) =>
      if !w.editing.EditedLong? then w
      else if outcome.Refused? then w.(editing := Idle)
      else w.(q := w.q.(long := w.q.long - Ids(w.editing.batch)), editing := Idle)
  }

  /** A save that reports an error ends its pass, whether or not it queued the tweet. */
  function Saved(w: World, p: nat, outcome: Outcome): World
    requires Finds(w, p)
  {
    var item := w.passes[p].item;
    match outcome
    case Done =>
      w.(q := Queued(w.q, item), passes := w.passes[p := Stored(item)], queued := w.queued + [item])
    case Refused => w.(passes := w.passes - {p})
    case Unanswered => w.(q := Queued(w.q, item), passes := w.passes - {p}, queued := w.queued + [item])
  }

  ghost function Run(w: World, steps: seq<Step>): World
    decreases |steps|
  {
    if steps == [] then w else Run(Next(w, steps[0]), steps[1..])
  }

  // ----- a link is queued once -----

  predicate OncePerLink(queued: seq<Item>) {
    forall i, j :: 0 <= i < j < |queued| ==> queued[i].link != queued[j].link
  }

  predicate InHand(w: World, t: Item) { exists p :: p in w.passes && w.passes[p] == Stored(t) }

  /** Every queued link is marked, or some pass marks it next; what passes have found is not marked, and
      no two passes have the same link. */
  ghost predicate Marking(w: World) {
    && OncePerLink(w.queued)
    && (forall i :: 0 <= i < |w.queued| ==> w.queued[i].link in w.q.sent || InHand(w, w.queued[i]))
    && (forall p :: Finds(w, p) ==> w.passes[p].item.link !in w.q.sent)
    && (forall p, r :: p in w.passes && r in w.passes && p != r ==> w.passes[p].item.link != w.passes[r].item.link)
  }

  /** A pass finds a link unmarked that another pass has in hand. */
  predicate Meets(w: World, s: Step) {
    && s.CheckSent? && s.p !in w.passes && s.item.link !in w.q.sent
    && exists r :: r in w.passes && w.passes[r].item.link == s.item.link
  }

  /** Queueing that reports an error has not happened, and marking does happen. */
  predicate Reliable(s: Step) {
    (s.SaveForEdit? ==> !s.outcome.Unanswered?) && (s.SaveSent? ==> !s.outcome.Refused?)
  }

  /** No pass meets another on one link. */
  ghost predicate Apart(w: World, steps: seq<Step>)
    decreases |steps|
  {
    steps == [] || (!Meets(w, steps[0]) && Apart(Next(w, steps[0]), steps[1..]))
  }

  /** Queueing and marking are reliable, and no pass meets another on one link. */
  ghost predicate Smooth(w: World, steps: seq<Step>) {
    Apart(w, steps) && forall s :: s in steps ==> Reliable(s)
  }

  /** A link found unmarked was never queued. */
  lemma FoundIsNew(w: World, p: nat, t: Item)
    requires Marking(w) && Finds(w, p) && t in w.queued
    ensures t.link != w.passes[p].item.link
  {
    var i :| 0 <= i < |w.queued| && w.queued[i] == t;
    assert w.queued[i].link in w.q.sent || InHand(w, w.queued[i]);
  }

  lemma CheckMarks(w: World, p: nat, item: Item)
    requires Marking(w) && !Meets(w, CheckSent(p, item))
    ensures Marking(Next(w, CheckSent(p, item)))
  {
    var n := Next(w, CheckSent(p, item));
    forall i | 0 <= i < |n.queued| ensures n.queued[i].link in n.q.sent || InHand(n, n.queued[i]) {
      if r :| r in w.passes && w.passes[r] == Stored(w.queued[i]) { assert n.passes[r] == Stored(w.queued[i]); }
    }
  }

  lemma RejectMarks(w: World, p: nat)
    requires Marking(w) && Finds(w, p)
    ensures Marking(w.(passes := w.passes - {p}))
  {
    var n := w.(passes := w.passes - {p});
    forall i | 0 <= i < |n.queued| ensures n.queued[i].link in n.q.sent || InHand(n, n.queued[i]) {
      if r :| r in w.passes && w.passes[r] == Stored(w.queued[i]) { assert n.passes[r] == Stored(w.queued[i]); }
    }
  }

  lemma SaveMarks(w: World, p: nat)
    requires Marking(w) && Finds(w, p)
    ensures Marking(Saved(w, p, Done))
  {
    var n, item := Saved(w, p, Done), w.passes[p].item;
    forall i | 0 <= i < |w.queued| ensures w.queued[i].link != item.link {
      FoundIsNew(w, p, w.queued[i]);
    }
    assert n.passes[p] == Stored(item);
    forall i | 0 <= i < |n.queued| ensures n.queued[i].link in n.q.sent || InHand(n, n.queued[i]) {
      if i < |w.queued| {
        if r :| r in w.passes && w.passes[r] == Stored(w.queued[i]) { assert n.passes[r] == Stored(w.queued[i]); }
      }
    }
  }

  lemma SentMarks(w: World, p: nat)
    requires Marking(w) && Stores(w, p)
    ensures Marking(w.(q := Marked(w.q, w.passes[p].item.link), passes := w.passes - {p}))
  {
    var n := w.(q := Marked(w.q, w.passes[p].item.link), passes := w.passes - {p});
    forall i | 0 <= i < |n.queued| ensures n.queued[i].link in n.q.sent || InHand(n, n.queued[i]) {
      if r :| r in w.passes && w.passes[r] == Stored(w.queued[i]) {
        assert r != p ==> n.passes[r] == Stored(w.queued[i]);
      }
    }
  }

  lemma EditMarks(w: World, n: World)
    requires Marking(w) && n.q.sent == w.q.sent && n.passes == w.passes && n.queued == w.queued
    ensures Marking(n)
  {
    forall i | 0 <= i < |n.queued| ensures n.queued[i].link in n.q.sent || InHand(n, n.queued[i]) {
      if r :| r in w.passes && w.passes[r] == Stored(w.queued[i]) { assert n.passes[r] == Stored(w.queued[i]); }
    }
    assert forall p :: Finds(n, p) ==> Finds(w, p);
  }

  lemma NextMarks(w: World, s: Step)
    requires Marking(w) && Reliable(s) && !Meets(w, s)
    ensures Marking(Next(w, s))
  {
    match s
    case CheckSent(p, item) => CheckMarks(w, p, item);
    case Reject(p) => if Finds(w, p) { RejectMarks(w, p); }
    case SaveForEdit(p, outcome) =>
      if Finds(w, p) {
        if outcome.Done? { SaveMarks(w, p); } else { RejectMarks(w, p); }
      }
    case SaveSent(p, _) => if Stores(w, p) { SentMarks(w, p); }
    case _ => EditMarks(w, Next(w, s));
  }

  /** While queueing and marking are reliable and no two passes meet on a link, a run queues each link at
      most once. */
  lemma {:induction false} QueuedOnce(w: World, steps: seq<Step>)
    requires Marking(w) && Smooth(w, steps)
    ensures Marking(Run(w, steps))
    decreases |steps|
  {
    if steps != [] {
      NextMarks(w, steps[0]);
      QueuedOnce(Next(w, steps[0]), steps[1..]);
    }
  }

  // ----- and exactly then -----

  /** A step of a run in which the rating lets every tweet through and every commit succeeds. */
  predicate Plain(s: Step) {
    !s.Reject? && (s.SaveForEdit? ==> s.outcome.Done?) && (s.SaveSent? ==> !s.outcome.Refused?)
  }

  /** What passes have stored was queued. */
  ghost predicate StoredQueued(w: World) {
    forall p :: Stores(w, p) ==> w.passes[p].item in w.queued
  }

  predicate TwoQueued(w: World) { !OncePerLink(w.queued) }

  predicate QueuedAndFound(w: World, i: nat, p: nat) {
    i < |w.queued| && Finds(w, p) && w.queued[i].link == w.passes[p].item.link
  }

  predicate TwoFound(w: World, p: nat, r: nat) {
    p != r && Finds(w, p) && Finds(w, r) && w.passes[p].item.link == w.passes[r].item.link
  }

  /** A link is queued twice, or will be when the passes under way are done. */
  ghost predicate Doomed(w: World) {
    TwoQueued(w) || (exists i, p :: QueuedAndFound(w, i, p)) || (exists p, r :: TwoFound(w, p, r))
  }

  lemma MeetingDooms(w: World, s: Step)
    requires StoredQueued(w) && Meets(w, s)
    ensures Doomed(Next(w, s))
  {
    var n := Next(w, s);
    var r :| r in w.passes && w.passes[r].item.link == s.item.link;
    if Stores(w, r) {
      var i :| 0 <= i < |w.queued| && w.queued[i] == w.passes[r].item;
      assert QueuedAndFound(n, i, s.p);
    } else {
      assert TwoFound(n, s.p, r);
    }
  }

  lemma QueuedGrows(w: World, s: Step)
    ensures Next(w, s).queued == w.queued
      || (s.SaveForEdit? && Finds(w, s.p) && Next(w, s).queued == w.queued + [w.passes[s.p].item])
  {
    if s.SaveForEdit? && Finds(w, s.p) { assert Next(w, s) == Saved(w, s.p, s.outcome); }
  }

  lemma TwiceInMore(queued: seq<Item>, t: Item)
    requires !OncePerLink(queued)
    ensures !OncePerLink(queued + [t])
  {
    var i, j :| 0 <= i < j < |queued| && queued[i].link == queued[j].link;
    assert (queued + [t])[i] == queued[i] && (queued + [t])[j] == queued[j];
  }

  lemma TwoQueuedStays(w: World, s: Step)
    requires TwoQueued(w)
    ensures TwoQueued(Next(w, s))
  {
    QueuedGrows(w, s);
    if s.SaveForEdit? && Finds(w, s.p) { TwiceInMore(w.queued, w.passes[s.p].item); }
  }

  lemma QueuedAndFoundStays(w: World, s: Step, i: nat, p: nat)
    requires QueuedAndFound(w, i, p) && Plain(s)
    ensures TwoQueued(Next(w, s)) || QueuedAndFound(Next(w, s), i, p)
  {
    if s.SaveForEdit? && s.p == p {
      var n := Next(w, s);
      assert n.queued[i] == w.queued[i] && n.queued[|w.queued|] == w.passes[p].item;
    }
  }

  lemma TwoFoundStays(w: World, s: Step, p: nat, r: nat)
    requires TwoFound(w, p, r) && Plain(s)
    ensures Doomed(Next(w, s))
  {
    var n := Next(w, s);
    if s.SaveForEdit? && s.p == p {
      assert QueuedAndFound(n, |w.queued|, r);
    } else if s.SaveForEdit? && s.p == r {
      assert QueuedAndFound(n, |w.queued|, p);
    } else {
      assert TwoFound(n, p, r);
    }
  }

  lemma {:induction false} DoomStays(w: World, steps: seq<Step>)
    requires Doomed(w) && forall s :: s in steps ==> Plain(s)
    ensures Doomed(Run(w, steps))
    decreases |steps|
  {
    if steps != [] {
      if TwoQueued(w) {
        TwoQueuedStays(w, steps[0]);
      } else if i, p :| QueuedAndFound(w, i, p) {
        QueuedAndFoundStays(w, steps[0], i, p);
      } else {
        var p, r :| TwoFound(w, p, r);
        TwoFoundStays(w, steps[0], p, r);
      }
      DoomStays(Next(w, steps[0]), steps[1..]);
    }
  }

  lemma NextStoredQueued(w: World, s: Step)
    requires StoredQueued(w)
    ensures StoredQueued(Next(w, s))
  {
    forall p | Stores(Next(w, s), p) ensures Next(w, s).passes[p].item in Next(w, s).queued {
      if Stores(w, p) { assert w.passes[p].item in w.queued; }
    }
  }

  lemma {:induction false} MeetingQueuesTwice(w: World, steps: seq<Step>)
    requires StoredQueued(w) && !Apart(w, steps) && forall s :: s in steps ==> Plain(s)
    ensures Doomed(Run(w, steps))
    decreases |steps|
  {
    if Meets(w, steps[0]) {
      MeetingDooms(w, steps[0]);
      DoomStays(Next(w, steps[0]), steps[1..]);
    } else {
      NextStoredQueued(w, steps[0]);
      MeetingQueuesTwice(Next(w, steps[0]), steps[1..]);
    }
  }

  /** In every interleaving of any number of passes in which the rating lets every tweet through, every
      commit succeeds and every pass comes to its end, each link is queued at most once exactly when no
      pass finds a link unmarked that another pass has in hand. */
  lemma QueuedOnceWhen(w: World, steps: seq<Step>)
    requires Marking(w) && StoredQueued(w) && (forall s :: s in steps ==> Plain(s)) && Run(w, steps).passes == map[]
    ensures OncePerLink(Run(w, steps).queued) <==> Apart(w, steps)
  {
    if Apart(w, steps) {
      QueuedOnce(w, steps);
    } else {
      MeetingQueuesTwice(w, steps);
    }
  }

  lemma {:induction false} RunAppend(w: World, first: seq<Step>, second: seq<Step>)
    ensures Run(w, first + second) == Run(Run(w, first), second)
    decreases |first|
  {
    if first == [] {
      assert first + second == second;
    } else {
      assert (first + second)[1..] == first[1..] + second;
      RunAppend(Next(w, first[0]), first[1..], second);
    }
  }

  lemma TwoSteps(w: World, s1: Step, s2: Step)
    ensures Run(w, [s1, s2]) == Next(Next(w, s1), s2)
  {
    assert [s1, s2][1..] == [s2] && [s2][1..] == [];
    assert Run(Next(w, s1), [s2]) == Run(Next(Next(w, s1), s2), []);
  }

  lemma ThreeSteps(w: World, s1: Step, s2: Step, s3: Step)
    ensures Run(w, [s1, s2, s3]) == Next(Next(Next(w, s1), s2), s3)
  {
    assert [s1, s2, s3][1..] == [s2, s3];
    TwoSteps(Next(w, s1), s2, s3);
  }

  /** A whole pass of processTweet on a tweet the rating lets through. */
  function Pass(p: nat, t: Item, saved: Outcome, marked: Outcome): seq<Step> {
    [CheckSent(p, t), SaveForEdit(p, saved), SaveSent(p, marked)]
  }

  /** A whole pass queues an unmarked link; the link is marked then exactly when queueing reports success
      and marking happens. */
  lemma PassQueues(w: World, p: nat, t: Item, saved: Outcome, marked: Outcome)
    requires p !in w.passes && t.link !in w.q.sent && !saved.Refused?
    ensures var n := Run(w, Pass(p, t, saved, marked));
            && n.queued == w.queued + [t] && n.passes == w.passes
            && (t.link in n.q.sent <==> saved.Done? && !marked.Refused?)
  {
    ThreeSteps(w, CheckSent(p, t), SaveForEdit(p, saved), SaveSent(p, marked));
  }

  /** Of two passes on one unmarked link, one after the other, the second queues it again exactly when
      queueing reported an error though it happened, or marking failed. */
  lemma QueuedAgainWhen(w: World, p: nat, t: Item, saved: Outcome, marked: Outcome)
    requires p !in w.passes && t.link !in w.q.sent && !saved.Refused?
    ensures var n := Run(w, Pass(p, t, saved, marked) + Pass(p, t, Done, Done));
            n.queued == if saved.Done? && !marked.Refused? then w.queued + [t] else w.queued + [t] + [t]
  {
    var n := Run(w, Pass(p, t, saved, marked));
    RunAppend(w, Pass(p, t, saved, marked), Pass(p, t, Done, Done));
    PassQueues(w, p, t, saved, marked);
    if t.link in n.q.sent {
      ThreeSteps(n, CheckSent(p, t), SaveForEdit(p, Done), SaveSent(p, Done));
    } else {
      PassQueues(n, p, t, Done, Done);
    }
  }

  /** Two passes that both check before either marks, and every commit succeeding. */
  function Together(p: nat, t: Item, r: nat, u: Item): seq<Step> {
    [CheckSent(p, t), CheckSent(r, u)] + ([SaveForEdit(p, Done), SaveSent(p, Done)]
      + [SaveForEdit(r, Done), SaveSent(r, Done)])
  }

  lemma Finishes(w: World, p: nat)
    requires Finds(w, p)
    ensures Run(w, [SaveForEdit(p, Done), SaveSent(p, Done)]) ==
      w.(q := Marked(Queued(w.q, w.passes[p].item), w.passes[p].item.link), passes := w.passes - {p},
         queued := w.queued + [w.passes[p].item])
  {
    TwoSteps(w, SaveForEdit(p, Done), SaveSent(p, Done));
    assert w.passes[p := Stored(w.passes[p].item)] - {p} == w.passes - {p};
  }

  /** Both queue their tweet, and the link is queued twice exactly when it is the same. */
  lemma TogetherQueueTwice(w: World, p: nat, t: Item, r: nat, u: Item)
    requires Marking(w) && w.passes == map[] && p != r && t.link !in w.q.sent && u.link !in w.q.sent
    ensures Run(w, Together(p, t, r, u)).queued == w.queued + [t] + [u]
    ensures OncePerLink(Run(w, Together(p, t, r, u)).queued) <==> t.link != u.link
  {
    var n := w.(passes := map[p := Found(t), r := Found(u)]);
    var first, second := [SaveForEdit(p, Done), SaveSent(p, Done)], [SaveForEdit(r, Done), SaveSent(r, Done)];
    TwoSteps(w, CheckSent(p, t), CheckSent(r, u));
    RunAppend(w, [CheckSent(p, t), CheckSent(r, u)], first + second);
    RunAppend(n, first, second);
    Finishes(n, p);
    Finishes(Run(n, first), r);
    NotQueued(w, t);
    NotQueued(w, u);
    TwoMore(w.queued, t, u);
  }

  lemma NotQueued(w: World, t: Item)
    requires Marking(w) && w.passes == map[] && t.link !in w.q.sent
    ensures forall i :: 0 <= i < |w.queued| ==> w.queued[i].link != t.link
  {
    forall i | 0 <= i < |w.queued| ensures w.queued[i].link != t.link {
      assert !InHand(w, w.queued[i]);
    }
  }

  lemma TwoMore(queued: seq<Item>, t: Item, u: Item)
    requires OncePerLink(queued)
    requires forall i :: 0 <= i < |queued| ==> queued[i].link != t.link && queued[i].link != u.link
    ensures OncePerLink(queued + [t] + [u]) <==> t.link != u.link
  {
    var all, k := queued + [t] + [u], |queued|;
    assert all[k] == t && all[k + 1] == u;
  }

  // ----- nothing leaves a queue unedited -----

  /** The batch in hand comes from the items queued; an edited one was given to an edit. */
  ghost predicate Handled(w: World) {
    && (w.editing.GotShort? || w.editing.GotLong? ==> forall t :: t in w.editing.batch ==> t in w.queued)
    && (w.editing.EditedShort? ==> forall t :: t in w.editing.batch ==> t in w.queued && t in w.shortGiven)
    && (w.editing.EditedLong? ==> forall t :: t in w.editing.batch ==> t in w.queued && t in w.longGiven)
    && (forall t :: t in w.shortGiven || t in w.longGiven ==> t in w.queued)
  }

  /** A queue holds queued items under their ids. */
  predicate Keyed(q: Queue, queued: seq<Item>) {
    forall id :: id in q ==> q[id].id == id && q[id] in queued
  }

  ghost predicate Sound(w: World) {
    Handled(w) && Keyed(w.q.short, w.queued) && Keyed(w.q.long, w.queued)
  }

  lemma ListingQueued(q: Queue, queued: seq<Item>)
    requires Keyed(q, queued)
    ensures forall t :: t in Listing(q) ==> t in queued
  {}

  lemma QueuedSound(w: World, n: World, t: Item)
    requires Sound(w) && n.q == Queued(w.q, t) && n.queued == w.queued + [t]
    requires n.editing == w.editing && n.shortGiven == w.shortGiven && n.longGiven == w.longGiven
    ensures Sound(n)
  {}

  lemma PassSound(w: World, s: Step)
    requires Sound(w) && OfPass(s)
    ensures Sound(Next(w, s))
  {
    if s.SaveForEdit? && Finds(w, s.p) && !s.outcome.Refused? {
      QueuedSound(w, Saved(w, s.p, s.outcome), w.passes[s.p].item);
    }
  }

  lemma ShortSound(w: World, s: Step)
    requires Sound(w) && OfShort(s)
    ensures Sound(Next(w, s))
  {
    if s.GetShort? { ListingQueued(w.q.short, w.queued); }
  }

  lemma LongSound(w: World, s: Step)
    requires Sound(w) && !OfPass(s) && !OfShort(s)
    ensures Sound(Next(w, s))
  {
    if s.GetLong? { ListingQueued(w.q.long, w.queued); }
  }

  lemma NextSound(w: World, s: Step)
    requires Sound(w)
    ensures Sound(Next(w, s))
  {
    if OfPass(s) { PassSound(w, s); } else if OfShort(s) { ShortSound(w, s); } else { LongSound(w, s); }
  }

  /** An item of this id is still in the queue, or a successful edit was given one. */
  predicate IdKept(q: Queue, given: set<Item>, id: Bytes) {
    id in q || exists t :: t in given && t.id == id
  }

  /** No id has left a queue without an edit of that kind. */
  ghost predicate NoIdLost(w: World) {
    forall t :: t in w.queued ==> IdKept(w.q.short, w.shortGiven, t.id) && IdKept(w.q.long, w.longGiven, t.id)
  }

  lemma AddKeeps(q: Queue, given: set<Item>, t: Item, id: Bytes)
    requires IdKept(q, given, id) || id == t.id
    ensures IdKept(q[t.id := t], given, id)
  {}

  lemma DeleteKeeps(q: Queue, given: set<Item>, batch: seq<Item>, id: Bytes)
    requires IdKept(q, given, id) && forall t :: t in batch ==> t in given
    ensures IdKept(q - Ids(batch), given, id)
  {
    if id in Ids(batch) {
      var t :| t in batch && t.id == id;
    }
  }

  lemma GivenKeeps(q: Queue, given: set<Item>, more: set<Item>, id: Bytes)
    requires IdKept(q, given, id)
    ensures IdKept(q, given + more, id)
  {
    if id !in q {
      var t :| t in given && t.id == id;
      assert t in given + more;
    }
  }

  lemma NextLosesNoId(w: World, s: Step, t: Item)
    requires Sound(w) && NoIdLost(w) && t in Next(w, s).queued
    ensures var n := Next(w, s); IdKept(n.q.short, n.shortGiven, t.id) && IdKept(n.q.long, n.longGiven, t.id)
  {
    match s
    case SaveForEdit(p, outcome) =>
      if Finds(w, p) && !outcome.Refused? {
        AddKeeps(w.q.short, w.shortGiven, w.passes[p].item, t.id);
        AddKeeps(w.q.long, w.longGiven, w.passes[p].item, t.id);
      }
    case EditShort(ok) =>
      if w.editing.GotShort? && ok { GivenKeeps(w.q.short, w.shortGiven, Elements(w.editing.batch), t.id); }
    case EditLong(ok) =>
      if w.editing.GotLong? && ok { GivenKeeps(w.q.long, w.longGiven, Elements(w.editing.batch), t.id); }
    case DeleteShort(outcome) =>
      if w.editing.EditedShort? && !outcome.Refused? { DeleteKeeps(w.q.short, w.shortGiven, w.editing.batch, t.id); }
    case DeleteLong(outcome) =>
      if w.editing.EditedLong? && !outcome.Refused? { DeleteKeeps(w.q.long, w.longGiven, w.editing.batch, t.id); }
    case _ =>
  }

  /** However any number of passes and the edit loop interleave and whatever fails, an id that was ever
      queued is in the short queue or a successful short edit was given a tweet of that id, likewise
      long; and edits are given nothing but tweets that were queued. */
  lemma {:induction false} RunLosesNoId(w: World, steps: seq<Step>)
    requires Sound(w) && NoIdLost(w)
    ensures Sound(Run(w, steps)) && NoIdLost(Run(w, steps))
    decreases |steps|
  {
    if steps != [] {
      var n := Next(w, steps[0]);
      NextSound(w, steps[0]);
      forall t | t in n.queued ensures IdKept(n.q.short, n.shortGiven, t.id) && IdKept(n.q.long, n.longGiven, t.id) {
        NextLosesNoId(w, steps[0], t);
      }
      RunLosesNoId(n, steps[1..]);
    }
  }

  // ----- how ids and tweets leave a queue -----

  /** The step deletes the id from the short queue: its batch, which an edit was given, has the id. */
  predicate DeletesShort(w: World, s: Step, id: Bytes) {
    s.DeleteShort? && w.editing.EditedShort? && !s.outcome.Refused? && id in Ids(w.editing.batch)
  }

  predicate DeletesLong(w: World, s: Step, id: Bytes) {
    s.DeleteLong? && w.editing.EditedLong? && !s.outcome.Refused? && id in Ids(w.editing.batch)
  }

  /** The step queues another tweet under the id of t. */
  predicate Overwrites(w: World, s: Step, t: Item) {
    && s.SaveForEdit? && Finds(w, s.p) && !s.outcome.Refused?
    && w.passes[s.p].item.id == t.id && w.passes[s.p].item != t
  }

  /** An id leaves the short queue exactly in a delete of the batch that was edited, if that has the id. */
  lemma ShortLeavesWhen(w: World, s: Step, id: Bytes)
    requires id in w.q.short
    ensures id !in Next(w, s).q.short <==> DeletesShort(w, s, id)
  {}

  lemma LongLeavesWhen(w: World, s: Step, id: Bytes)
    requires id in w.q.long
    ensures id !in Next(w, s).q.long <==> DeletesLong(w, s, id)
  {}

  /** So whenever in a run an id leaves the short queue, the edit just made was given a tweet of that id. */
  lemma ShortLeavesEdited(w: World, steps: seq<Step>, s: Step, id: Bytes)
    requires Sound(w) && NoIdLost(w)
    requires id in Run(w, steps).q.short && id !in Run(w, steps + [s]).q.short
    ensures DeletesShort(Run(w, steps), s, id)
    ensures exists t :: t in Run(w, steps).editing.batch && t.id == id && t in Run(w, steps).shortGiven
  {
    var n := Run(w, steps);
    RunOneMore(w, steps, s);
    RunLosesNoId(w, steps);
    ShortLeavesWhen(n, s, id);
    var t :| t in n.editing.batch && t.id == id;
    assert t in n.shortGiven;
  }

  lemma LongLeavesEdited(w: World, steps: seq<Step>, s: Step, id: Bytes)
    requires Sound(w) && NoIdLost(w)
    requires id in Run(w, steps).q.long && id !in Run(w, steps + [s]).q.long
    ensures DeletesLong(Run(w, steps), s, id)
    ensures exists t :: t in Run(w, steps).editing.batch && t.id == id && t in Run(w, steps).longGiven
  {
    var n := Run(w, steps);
    RunOneMore(w, steps, s);
    RunLosesNoId(w, steps);
    LongLeavesWhen(n, s, id);
    var t :| t in n.editing.batch && t.id == id;
    assert t in n.longGiven;
  }

  lemma RunOneMore(w: World, steps: seq<Step>, s: Step)
    ensures Run(w, steps + [s]) == Next(Run(w, steps), s)
  {
    RunAppend(w, steps, [s]);
    assert [s][1..] == [];
    assert Run(Run(w, steps), [s]) == Run(Next(Run(w, steps), s), []);
  }

  /** This very item is still in the queue, or a successful edit was given it. */
  predicate ItemKept(q: Queue, given: set<Item>, t: Item) {
    (t.id in q && q[t.id] == t) || t in given
  }

  /** A queued tweet is lost to short edits in a step exactly when none was given it and the step deletes
      its id, for an earlier tweet of that id, or queues another tweet under it. */
  lemma ShortLostWhen(w: World, s: Step, id: Bytes)
    requires Sound(w) && id in w.q.short
    ensures var n, t := Next(w, s), w.q.short[id];
            !ItemKept(n.q.short, n.shortGiven, t) <==>
              t !in w.shortGiven && (DeletesShort(w, s, id) || Overwrites(w, s, t))
  {
    assert w.q.short[id].id == id;
  }

  lemma LongLostWhen(w: World, s: Step, id: Bytes)
    requires Sound(w) && id in w.q.long
    ensures var n, t := Next(w, s), w.q.long[id];
            !ItemKept(n.q.long, n.longGiven, t) <==>
              t !in w.longGiven && (DeletesLong(w, s, id) || Overwrites(w, s, t))
  {
    assert w.q.long[id].id == id;
  }

  /** A tweet u queued, under an id that a batch in hand has, before the batch is edited and deleted. */
  function WhileShort(u: Item): seq<Step> { Pass(0, u, Done, Done) + [EditShort(true), DeleteShort(Done)] }

  function WhileLong(u: Item): seq<Step> { Pass(0, u, Done, Done) + [EditLong(true), DeleteLong(Done)] }

  /** It vanishes from the short queue unedited, though every commit and the edit succeed. */
  lemma QueuedWhileShortLost(w: World, u: Item)
    requires w.editing.GotShort? && u.id in Ids(w.editing.batch) && u !in w.editing.batch && u !in w.shortGiven
    requires w.passes == map[] && u.link !in w.q.sent
    ensures var n := Run(w, WhileShort(u)); u in n.queued && u.id !in n.q.short && u !in n.shortGiven
  {
    var w1 := w.(q := Marked(Queued(w.q, u), u.link), queued := w.queued + [u]);
    RunAppend(w, Pass(0, u, Done, Done), [EditShort(true), DeleteShort(Done)]);
    PassDone(w, u);
    TwoSteps(w1, EditShort(true), DeleteShort(Done));
  }

  lemma QueuedWhileLongLost(w: World, u: Item)
    requires w.editing.GotLong? && u.id in Ids(w.editing.batch) && u !in w.editing.batch && u !in w.longGiven
    requires w.passes == map[] && u.link !in w.q.sent
    ensures var n := Run(w, WhileLong(u)); u in n.queued && u.id !in n.q.long && u !in n.longGiven
  {
    var w1 := w.(q := Marked(Queued(w.q, u), u.link), queued := w.queued + [u]);
    RunAppend(w, Pass(0, u, Done, Done), [EditLong(true), DeleteLong(Done)]);
    PassDone(w, u);
    TwoSteps(w1, EditLong(true), DeleteLong(Done));
  }

  /** The queues with one tweet, and its get. */
  function OneGot(t: Item): World {
    At(Marked(Queued(START.q, t), t.link)).(editing := GotShort([t]), queued := [t])
  }

  lemma OneIsGot(t: Item)
    ensures Run(START, Pass(0, t, Done, Done) + [GetShort]) == OneGot(t)
  {
    RunOneMore(START, Pass(0, t, Done, Done), GetShort);
    PassDone(START, t);
    ListingOne(t);
    assert [] + [t] == [t];
  }

  /** From the empty queues: one tweet is queued and got, and another one of its id is lost. */
  lemma LostFromStart(t: Item, u: Item)
    requires t.id == u.id && t.link != u.link
    ensures var n := Run(START, (Pass(0, t, Done, Done) + [GetShort]) + WhileShort(u));
            u in n.queued && u.id !in n.q.short && u !in n.shortGiven
  {
    OneIsGot(t);
    RunAppend(START, Pass(0, t, Done, Done) + [GetShort], WhileShort(u));
    assert t in [t];
    QueuedWhileShortLost(OneGot(t), u);
  }

  lemma PassDone(w: World, t: Item)
    requires w.passes == map[] && t.link !in w.q.sent
    ensures Run(w, Pass(0, t, Done, Done)) == w.(q := Marked(Queued(w.q, t), t.link), queued := w.queued + [t])
  {
    ThreeSteps(w, CheckSent(0, t), SaveForEdit(0, Done), SaveSent(0, Done));
    assert map[0 := Found(t)][0 := Stored(t)] - {0} == map[];
  }

  lemma ListingOne(t: Item)
    ensures Listing(map[t.id := t]) == [t]
  {
    var q: Queue := map[t.id := t];
    assert q.Keys == {t.id};
  }

  // ----- nor does a tweet, when links are queued once -----

  predicate Fits(linkOf: map<Bytes, Bytes>, t: Item) { t.id in linkOf && linkOf[t.id] == t.link }

  /** Tweets of one id have one link. */
  ghost predicate Linked(w: World, linkOf: map<Bytes, Bytes>) {
    && (forall t :: t in w.queued ==> Fits(linkOf, t))
    && (forall p :: p in w.passes ==> Fits(linkOf, w.passes[p].item))
  }

  ghost predicate NoItemLost(w: World) {
    forall t :: t in w.queued ==> ItemKept(w.q.short, w.shortGiven, t) && ItemKept(w.q.long, w.longGiven, t)
  }

  lemma SameItem(w: World, linkOf: map<Bytes, Bytes>, a: Item, b: Item)
    requires Marking(w) && Linked(w, linkOf) && a in w.queued && b in w.queued && a.id == b.id
    ensures a == b
  {
    assert Fits(linkOf, a) && Fits(linkOf, b);
    var i :| 0 <= i < |w.queued| && w.queued[i] == a;
    var j :| 0 <= j < |w.queued| && w.queued[j] == b;
    if i != j { assert false; }
  }

  /** So its id was not queued before either. */
  lemma FoundIdIsNew(w: World, linkOf: map<Bytes, Bytes>, p: nat, t: Item)
    requires Marking(w) && Linked(w, linkOf) && Finds(w, p) && t in w.queued
    ensures t.id != w.passes[p].item.id
  {
    FoundIsNew(w, p, t);
    assert Fits(linkOf, t) && Fits(linkOf, w.passes[p].item);
  }

  lemma DeleteKeepsItem(w: World, linkOf: map<Bytes, Bytes>, q: Queue, given: set<Item>, batch: seq<Item>, t: Item)
    requires Marking(w) && Linked(w, linkOf) && t in w.queued
    requires ItemKept(q, given, t) && forall u :: u in batch ==> u in given && u in w.queued
    ensures ItemKept(q - Ids(batch), given, t)
  {
    if t.id in Ids(batch) {
      var u :| u in batch && u.id == t.id;
      SameItem(w, linkOf, u, t);
    }
  }

  lemma SaveLosesNoItem(w: World, linkOf: map<Bytes, Bytes>, p: nat, t: Item)
    requires Marking(w) && Linked(w, linkOf) && NoItemLost(w) && Finds(w, p)
    requires t in w.queued || t == w.passes[p].item
    ensures var q := Queued(w.q, w.passes[p].item);
            ItemKept(q.short, w.shortGiven, t) && ItemKept(q.long, w.longGiven, t)
  {
    if t in w.queued { FoundIdIsNew(w, linkOf, p, t); }
  }

  lemma NextLosesNoItem(w: World, s: Step, linkOf: map<Bytes, Bytes>, t: Item)
    requires Sound(w) && Marking(w) && Linked(w, linkOf) && NoItemLost(w) && t in Next(w, s).queued
    ensures var n := Next(w, s); ItemKept(n.q.short, n.shortGiven, t) && ItemKept(n.q.long, n.longGiven, t)
  {
    match s
    case SaveForEdit(p, outcome) => if Finds(w, p) && !outcome.Refused? { SaveLosesNoItem(w, linkOf, p, t); }
    case DeleteShort(outcome) =>
      if w.editing.EditedShort? && !outcome.Refused? {
        DeleteKeepsItem(w, linkOf, w.q.short, w.shortGiven, w.editing.batch, t);
      }
    case DeleteLong(outcome) =>
      if w.editing.EditedLong? && !outcome.Refused? {
        DeleteKeepsItem(w, linkOf, w.q.long, w.longGiven, w.editing.batch, t);
      }
    case _ =>
  }

  lemma NextLinked(w: World, s: Step, linkOf: map<Bytes, Bytes>)
    requires Linked(w, linkOf) && (s.CheckSent? ==> Fits(linkOf, s.item))
    ensures Linked(Next(w, s), linkOf)
  {}

  /** In such a run, and when a tweet's id determines its link, every tweet ever queued is still in the
      short queue as it was queued, or a successful short edit was given exactly it; likewise long. */
  lemma {:induction false} RunLosesNoItem(w: World, steps: seq<Step>, linkOf: map<Bytes, Bytes>)
    requires Sound(w) && Marking(w) && Linked(w, linkOf) && NoItemLost(w)
    requires Smooth(w, steps) && forall s :: s in steps && s.CheckSent? ==> Fits(linkOf, s.item)
    ensures NoItemLost(Run(w, steps)) && OncePerLink(Run(w, steps).queued)
    decreases |steps|
  {
    if steps != [] {
      var n := Next(w, steps[0]);
      NextSound(w, steps[0]);
      NextMarks(w, steps[0]);
      NextLinked(w, steps[0], linkOf);
      forall t | t in n.queued ensures ItemKept(n.q.short, n.shortGiven, t) && ItemKept(n.q.long, n.longGiven, t) {
        NextLosesNoItem(w, steps[0], linkOf, t);
      }
      RunLosesNoItem(n, steps[1..], linkOf);
    }
  }

  lemma StartIsSound(linkOf: map<Bytes, Bytes>)
    ensures Sound(START) && Marking(START) && NoIdLost(START) && NoItemLost(START) && Linked(START, linkOf)
  {}

  /** From the empty queues: no run loses an id, and none that is smooth loses a tweet. */
  lemma RunFromStart(steps: seq<Step>, linkOf: map<Bytes, Bytes>)
    requires forall s :: s in steps && s.CheckSent? ==> Fits(linkOf, s.item)
    ensures NoIdLost(Run(START, steps))
    ensures Smooth(START, steps) ==> NoItemLost(Run(START, steps)) && OncePerLink(Run(START, steps).queued)
  {
    StartIsSound(linkOf);
    RunLosesNoId(START, steps);
    if Smooth(START, steps) { RunLosesNoItem(START, steps, linkOf); }
  }

  // ----- the repository, the watcher's pass and the edit loop -----

  /** Reads a queue in key order. */
  method ListQueue(q: Queue) returns (items: seq<Item>)
    ensures items == Listing(q)
  {
    var ks := SortedKeys(q.Keys);
    items := [];
    for i := 0 to |ks|
      invariant |items| == i && forall j :: 0 <= j < i ==> ks[j] in q && items[j] == q[ks[j]]
    {
      assert ks[i] in ks;
      items := items + [q[ks[i]]];
    }
  }

  /** What reading a queue gives. */
  datatype QueueRead = ReadFailed | NoTweets | NotEnough | Collected(items: seq<Item>)

  class EditingRepo {
    var short: Queue
    var long: Queue
    var sent: set<Bytes>

    constructor ()
      ensures State() == START.q
    {
      short, long, sent := map[], map[], {};
    }

    ghost function State(): Queues
      reads this
    {
      Queues(short, long, sent)
    }

    /** Sets the tweet in both queues and reports whether the commit succeeded. */
    method SaveTweetForEdit(t: Item, outcome: Outcome) returns (saved: bool)
      modifies this
      ensures saved == outcome.Done?
      ensures State() == if outcome.Refused? then old(State()) else Queued(old(State()), t)
    {
      if !outcome.Refused? {
        short, long := short[t.id := t], long[t.id := t];
      }
      saved := outcome.Done?;
    }

    method SaveSentTweet(link: Bytes, outcome: Outcome)
      modifies this
      ensures State() == if outcome.Refused? then old(State()) else Marked(old(State()), link)
    {
      if !outcome.Refused? {
        sent := sent + {link};
      }
    }

    /** Whether the link is marked, unless reading fails. */
    method CheckIfSentTweetExist(link: Bytes, readOk: bool) returns (exist: Option<bool>)
      ensures exist == if readOk then Some(link in sent) else None
    {
      exist := if readOk then Some(link in sent) else None;
    }

    method GetTweetForShortEdit(readOk: bool) returns (r: QueueRead)
      ensures r == if !readOk then ReadFailed else if short == map[] then NoTweets else Collected(Listing(short))
    {
      if !readOk {
        return ReadFailed;
      }
      var items := ListQueue(short);
      if short == map[] {
        return NoTweets;
      }
      r := Collected(items);
    }

    method DeleteShortEditedTweets(ids: seq<Bytes>, outcome: Outcome)
      modifies this
      ensures State() == if outcome.Refused? then old(State())
                         else old(State()).(short := old(short) - (set id | id in ids))
    {
      if !outcome.Refused? {
        var i := 0;
        while i < |ids|
          invariant 0 <= i <= |ids| && long == old(long) && sent == old(sent)
          invariant short == old(short) - (set id | id in ids[..i])
        {
          assert ids[..i + 1] == ids[..i] + [ids[i]];
          short := short - {ids[i]};
          i := i + 1;
        }
        assert ids[..i] == ids;
      }
    }

    /** The first `count` tweets of the long queue, once there are as many. */
    method GetTweetForLongEdit(count: nat, readOk: bool) returns (r: QueueRead)
      requires count > 0
      ensures r.Collected? <==> readOk && |Listing(long)| >= count
      ensures r == if !readOk then ReadFailed
                   else if long == map[] then NoTweets
                   else if |Listing(long)| < count then NotEnough
                   else Collected(Listing(long)[..count])
    {
      if !readOk {
        return ReadFailed;
      }
      var items := ListQueue(long);
      if long == map[] {
        EmptyListing(long);
        return NoTweets;
      }
      if |items| < count {
        return NotEnough;
      }
      r := Collected(items[..count]);
    }

    method DeleteLongEditedTweets(ids: seq<Bytes>, outcome: Outcome)
      modifies this
      ensures State() == if outcome.Refused? then old(State())
                         else old(State()).(long := old(long) - (set id | id in ids))
    {
      if !outcome.Refused? {
        var i := 0;
        while i < |ids|
          invariant 0 <= i <= |ids| && short == old(short) && sent == old(sent)
          invariant long == old(long) - (set id | id in ids[..i])
        {
          assert ids[..i + 1] == ids[..i] + [ids[i]];
          long := long - {ids[i]};
          i := i + 1;
        }
        assert ids[..i] == ids;
      }
    }

    /** Queues a tweet not sent before that the rating lets through, and marks it as sent. `check` is the
        rating's answer, if it gives one; the other parameters say how reading and committing end. */
    method ProcessTweet(t: Item, readOk: bool, check: Option<(bool, real)>, saved: Outcome, marked: Outcome)
      returns (ratingSpeed: real)
      modifies this
      ensures State() == Run(At(old(State())), PassSteps(t, readOk, check, saved, marked)).q
      ensures var queues := readOk && t.link !in old(sent) && check.Some? && check.value.0 && !saved.Refused?;
              && short == (if queues then old(short)[t.id := t] else old(short))
              && long == (if queues then old(long)[t.id := t] else old(long))
              && sent == (if queues && saved.Done? && !marked.Refused? then old(sent) + {t.link} else old(sent))
      ensures ratingSpeed == if !readOk || t.link in old(sent) || check.None? then 0.0 else check.value.1
    {
      PassRun(State(), t, readOk, check, saved, marked);
      var isExist := CheckIfSentTweetExist(t.link, readOk);
      if isExist.None? || isExist.value || check.None? {
        return 0.0;
      }
      if check.value.0 {
        var ok := SaveTweetForEdit(t, saved);
        if !ok {
          return check.value.1;
        }
        SaveSentTweet(t.link, marked);
      }
      ratingSpeed := check.value.1;
    }

    /** The short branch of the edit loop: get all, edit, and delete what was edited. */
    method ShortTick(readOk: bool, editOk: bool, deleted: Outcome)
      modifies this
      ensures State() == Run(At(old(State())), ShortSteps(readOk, editOk, deleted)).q
      ensures long == old(long) && sent == old(sent)
      ensures (forall id :: id in old(short) ==> old(short)[id].id == id) ==>
        short == if readOk && editOk && !deleted.Refused? then map[] else old(short)
    {
      ShortRun(State(), readOk, editOk, deleted);
      AllListed(short);
      var collected := GetTweetForShortEdit(readOk);
      if !collected.Collected? || !editOk {
        return;
      }
      var ids := IdList(collected.items);
      DeleteShortEditedTweets(ids, deleted);
    }

    /** The long branch: get `count`, write the story within ten attempts, and delete. */
    method LongTick(count: nat, readOk: bool, succeeds: nat -> bool, deleted: Outcome)
      requires count > 0
      modifies this
      ensures State() == Run(At(old(State())), LongSteps(count, readOk, WithinTen(succeeds), deleted)).q
      ensures short == old(short) && sent == old(sent)
      ensures long ==
        if readOk && |Listing(old(long))| >= count && (exists k: nat :: k < 10 && succeeds(k)) && !deleted.Refused?
        then old(long) - Ids(Listing(old(long))[..count])
        else old(long)
    {
      LongRun(State(), count, readOk, WithinTen(succeeds), deleted);
      var read := GetTweetForLongEdit(count, readOk);
      if !read.Collected? {
        return;
      }
      var ok, calls := LongStoryProcess(succeeds);
      if !ok {
        return;
      }
      var ids := IdList(read.items);
      DeleteLongEditedTweets(ids, deleted);
    }
  }

  /** Some attempt of the first ten succeeds. */
  ghost predicate WithinTen(succeeds: nat -> bool) { exists k: nat :: k < 10 && succeeds(k) }

  /** Writes the long story; `succeeds` says which attempt does. Ten failures in a row give up. */
  method LongStoryProcess(succeeds: nat -> bool) returns (ok: bool, calls: nat)
    ensures ok <==> WithinTen(succeeds)
    ensures calls <= 10 && (forall k: nat :: k < calls && succeeds(k) ==> k == calls - 1)
    ensures if ok then calls > 0 && succeeds(calls - 1) else calls == 10
  {
    var retry := 0;
    ok, calls := false, 0;
    while !ok && retry < 10
      invariant retry <= 10 && calls == retry + if ok then 1 else 0
      invariant forall k: nat :: k < retry ==> !succeeds(k)
      invariant ok ==> retry < 10 && succeeds(retry)
      decreases !ok, 10 - retry
    {
      ok := succeeds(retry);
      calls := calls + 1;
      if !ok {
        retry := retry + 1;
      }
    }
  }

  method IdList(items: seq<Item>) returns (ids: seq<Bytes>)
    ensures (set id | id in ids) == Ids(items)
  {
    ids := [];
    for i := 0 to |items|
      invariant |ids| == i && forall j :: 0 <= j < i ==> ids[j] == items[j].id
    {
      ids := ids + [items[i].id];
    }
    assert forall t :: t in items ==> t.id in ids by {
      forall t | t in items ensures t.id in ids {
        var j :| 0 <= j < |items| && items[j] == t;
        assert ids[j] in ids;
      }
    }
  }

  /** The steps of one processTweet; none when reading the mark fails. */
  function PassSteps(t: Item, readOk: bool, check: Option<(bool, real)>, saved: Outcome, marked: Outcome): seq<Step> {
    if !readOk then []
    else if check.None? || !check.value.0 then [CheckSent(0, t), Reject(0)]
    else Pass(0, t, saved, marked)
  }

  /** The steps of a short branch. */
  function ShortSteps(readOk: bool, editOk: bool, deleted: Outcome): seq<Step> {
    if readOk then [GetShort, EditShort(editOk), DeleteShort(deleted)] else []
  }

  /** The steps of a long branch. */
  function LongSteps(count: nat, readOk: bool, editOk: bool, deleted: Outcome): seq<Step> {
    if readOk then [GetLong(count), EditLong(editOk), DeleteLong(deleted)] else []
  }

  /** Deleting all that is listed empties a queue that holds its tweets under their ids. */
  lemma AllListed(q: Queue)
    ensures (forall id :: id in q ==> q[id].id == id) ==> q - Ids(Listing(q)) == map[]
  {
    if forall id :: id in q ==> q[id].id == id {
      forall id | id in q ensures id in Ids(Listing(q)) {
        var i :| 0 <= i < |Sorted(q.Keys)| && Sorted(q.Keys)[i] == id;
        assert Listing(q)[i] in Listing(q);
      }
    }
  }

  lemma ShortRun(q: Queues, readOk: bool, editOk: bool, deleted: Outcome)
    ensures Run(At(q), ShortSteps(readOk, editOk, deleted)).q ==
      if !readOk || q.short == map[] || !editOk || deleted.Refused? then q
      else q.(short := q.short - Ids(Listing(q.short)))
  {
    if readOk {
      var w := At(q);
      var w1 := Next(w, GetShort);
      ThreeSteps(w, GetShort, EditShort(editOk), DeleteShort(deleted));
      if q.short == map[] {
        assert w1 == w;
      } else {
        assert w1 == w.(editing := GotShort(Listing(q.short)));
        ShortFinish(w1, editOk, deleted);
      }
    }
  }

  lemma ShortFinish(w: World, editOk: bool, deleted: Outcome)
    requires w.editing.GotShort?
    ensures Next(Next(w, EditShort(editOk)), DeleteShort(deleted)).q ==
      if !editOk || deleted.Refused? then w.q else w.q.(short := w.q.short - Ids(w.editing.batch))
  {}

  lemma LongRun(q: Queues, count: nat, readOk: bool, editOk: bool, deleted: Outcome)
    requires count > 0
    ensures Run(At(q), LongSteps(count, readOk, editOk, deleted)).q ==
      if !readOk || |Listing(q.long)| < count || !editOk || deleted.Refused? then q
      else q.(long := q.long - Ids(Listing(q.long)[..count]))
  {
    if readOk {
      var w := At(q);
      var w1 := Next(w, GetLong(count));
      ThreeSteps(w, GetLong(count), EditLong(editOk), DeleteLong(deleted));
      if |Listing(q.long)| < count {
        assert w1 == w;
      } else {
        assert w1 == w.(editing := GotLong(Taken(q.long, count)));
        LongFinish(w1, editOk, deleted);
      }
    }
  }

  lemma LongFinish(w: World, editOk: bool, deleted: Outcome)
    requires w.editing.GotLong?
    ensures Next(Next(w, EditLong(editOk)), DeleteLong(deleted)).q ==
      if !editOk || deleted.Refused? then w.q else w.q.(long := w.q.long - Ids(w.editing.batch))
  {}

  lemma EmptyListing(q: Queue)
    requires q == map[]
    ensures |Listing(q)| == 0
  {
    assert q.Keys == {};
  }

  lemma PassRun(q: Queues, t: Item, readOk: bool, check: Option<(bool, real)>, saved: Outcome, marked: Outcome)
    ensures Run(At(q), PassSteps(t, readOk, check, saved, marked)).q ==
      if !readOk || t.link in q.sent || check.None? || !check.value.0 || saved.Refused? then q
      else if saved.Done? && !marked.Refused? then Marked(Queued(q, t), t.link)
      else Queued(q, t)
  {
    if readOk {
      if check.None? || !check.value.0 {
        TwoSteps(At(q), CheckSent(0, t), Reject(0));
      } else {
        ThreeSteps(At(q), CheckSent(0, t), SaveForEdit(0, saved), SaveSent(0, marked));
      }
    }
  }
}
