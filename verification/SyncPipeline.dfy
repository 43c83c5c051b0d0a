/**
  The burnchain download pipeline (sync_with_indexer in
  src/burnchains/burnchain.rs): the caller feeds headers to a download thread, which
  feeds blocks to a parse thread, which feeds a database thread.  The channels hold
  one item.  Each thread may fail whenever it works on an item; a thread that ends
  drops its ends of the channels.
 */
module SyncPipeline {

  import opened Results

  /** A channel of capacity one; `Stop` is the `None` that ends the stream. */
  datatype Slot<+T> = Empty | Item(value: T) | Stop

  /** A download or parse thread, by the point that it has reached. */
  datatype Stage<+X, +Y> = Receiving | Working(item: X) | Sending(result: Y) | Closing | Finished(ok: bool)

  datatype Feeder = Reading | Feeding | Stopping | Fed(ok: bool) | Aborted

  datatype Database<+C> = Waiting | Inserting(block: C) | Stored | Failed | CoordinatorGone

  /**
    Threads and channels, the blocks in the database, and how many items each thread
    has put on the next channel or got from its own.
   */
  datatype State<+H, +B, +C> = State(
    feeder: Feeder, fed: nat,
    toDownloader: Slot<H>, downloader: Stage<H, B>, downloaderGot: nat, downloaderPut: nat,
    toParser: Slot<B>, parser: Stage<B, C>, parserGot: nat, parserPut: nat,
    toDatabase: Slot<C>, database: Database<C>, databaseGot: nat,
    stored: seq<C>)

  /** What the run works on: headers, what downloading and parsing make of them, and heights. */
  datatype Job<!H, !B, !C> = Job(headers: seq<H>, download: H -> B, parse: B -> C, height: C -> nat)

  function Blocks<H, B, C>(j: Job<H, B, C>): (bs: seq<B>)
    ensures |bs| == |j.headers|
  {
    Map(j.download, j.headers)
  }

  /** The parsed blocks of all headers. */
  function Images<H, B, C>(j: Job<H, B, C>): (cs: seq<C>)
    ensures |cs| == |j.headers|
  {
    Map(j.parse, Blocks(j))
  }

  /** The genesis block is not inserted. */
  function Kept<C>(height: C -> nat, cs: seq<C>): (r: seq<C>)
  {
    if cs == [] then []
    else Kept(height, cs[..|cs| - 1]) + if height(cs[|cs| - 1]) == 0 then [] else [cs[|cs| - 1]]
  }

  // ---------------------------------------------------------------- steps

  function Init<H, B, C>(): (s: State<H, B, C>)
  {
    State(Reading, 0, Empty, Receiving, 0, 0, Empty, Receiving, 0, 0, Empty, Waiting, 0, [])
  }

  /** One side of a thread: its point, its channels, and what it got and put. */
  datatype Port<+X, +Y> = Port(input: Slot<X>, stage: Stage<X, Y>, got: nat, put: nat, output: Slot<Y>)

  /**
    A step of the download or parse thread.  `up`: the sender of its input is alive;
    `down`: the receiver of its output is alive.
   */
  predicate StageStep<X(==), Y(==)>(f: X -> Y, up: bool, down: bool, p: Port<X, Y>, p': Port<X, Y>)
  {
    match p.stage
    case Receiving =>
      (match p.input
       case Item(x) => p' == p.(stage := Working(x), input := Empty, got := p.got + 1)
       case Stop => p' == p.(stage := Closing, input := Empty)
       case Empty => !up && p' == p.(stage := Closing))
    case Working(x) =>
      || p' == p.(stage := Sending(f(x)))
      || p' == p.(stage := Finished(false), input := Empty)
    case Sending(y) =>
      || (down && p.output == Empty && p' == p.(stage := Receiving, output := Item(y), put := p.put + 1))
      || (!down && p' == p.(stage := Finished(false), input := Empty))
    case Closing =>
      || (down && p.output == Empty && p' == p.(stage := Finished(true), output := Stop, input := Empty))
      || (!down && p' == p.(stage := Finished(false), input := Empty))
    case Finished(_) => false
  }

  /** The calling thread; its sender lives until the other threads are joined, or a header read fails. */
  predicate FeederStep<H(==), B(==), C(==)>(j: Job<H, B, C>, s: State<H, B, C>, s': State<H, B, C>)
  {
    var down := !s.downloader.Finished?;
    match s.feeder
    case Reading => s' == s.(feeder := Feeding) || s' == s.(feeder := Aborted)
    case Feeding =>
      if s.fed >= |j.headers| then s' == s.(feeder := Stopping)
      else
        || (down && s.toDownloader == Empty && s' == s.(toDownloader := Item(j.headers[s.fed]), fed := s.fed + 1))
        || (!down && s' == s.(feeder := Fed(false)))
    case Stopping =>
      || (down && s.toDownloader == Empty && s' == s.(toDownloader := Stop, feeder := Fed(true)))
      || (!down && s' == s.(feeder := Fed(false)))
    case _ => false
  }

  function DownloaderPort<H, B, C>(s: State<H, B, C>): (p: Port<H, B>)
  {
    Port(s.toDownloader, s.downloader, s.downloaderGot, s.downloaderPut, s.toParser)
  }

  function SetDownloader<H, B, C>(s: State<H, B, C>, p: Port<H, B>): (r: State<H, B, C>)
  {
    s.(toDownloader := p.input, downloader := p.stage, downloaderGot := p.got, downloaderPut := p.put,
          toParser := p.output)
  }

  function ParserPort<H, B, C>(s: State<H, B, C>): (p: Port<B, C>)
  {
    Port(s.toParser, s.parser, s.parserGot, s.parserPut, s.toDatabase)
  }

  function SetParser<H, B, C>(s: State<H, B, C>, p: Port<B, C>): (r: State<H, B, C>)
  {
    s.(toParser := p.input, parser := p.stage, parserGot := p.got, parserPut := p.put, toDatabase := p.output)
  }

  predicate DownloaderStep<H(==), B(==), C(==)>(j: Job<H, B, C>, s: State<H, B, C>, s': State<H, B, C>)
  {
    && StageStep(j.download, !s.feeder.Aborted?, !s.parser.Finished?, DownloaderPort(s), DownloaderPort(s'))
    && s' == SetDownloader(s, DownloaderPort(s'))
  }

  predicate DatabaseEnded<C>(d: Database<C>)
  {
    d.Stored? || d.Failed? || d.CoordinatorGone?
  }

  predicate ParserStep<H(==), B(==), C(==)>(j: Job<H, B, C>, s: State<H, B, C>, s': State<H, B, C>)
  {
    && StageStep(j.parse, !s.downloader.Finished?, !DatabaseEnded(s.database), ParserPort(s), ParserPort(s'))
    && s' == SetParser(s, ParserPort(s'))
  }

  predicate DatabaseStep<H(==), B(==), C(==)>(j: Job<H, B, C>, s: State<H, B, C>, s': State<H, B, C>)
  {
    match s.database
    case Waiting =>
      (match s.toDatabase
       case Item(c) =>
         s' == s.(database := if j.height(c) == 0 then Waiting else Inserting(c), toDatabase := Empty,
               databaseGot := s.databaseGot + 1)
       case Stop => s' == s.(database := Stored, toDatabase := Empty)
       case Empty => s.parser.Finished? && s' == s.(database := Stored))
    case Inserting(c) =>
      || s' == s.(database := Waiting, stored := s.stored + [c])
      || s' == s.(database := CoordinatorGone, stored := s.stored + [c], toDatabase := Empty)
      || s' == s.(database := Failed, toDatabase := Empty)
    case _ => false
  }

  predicate Next<H(==), B(==), C(==)>(j: Job<H, B, C>, s: State<H, B, C>, s': State<H, B, C>)
  {
    FeederStep(j, s, s') || DownloaderStep(j, s, s') || ParserStep(j, s, s') || DatabaseStep(j, s, s')
  }

  /** Everybody is done and the threads can be joined. */
  predicate Terminal<H, B, C>(s: State<H, B, C>)
  {
    (s.feeder.Fed? || s.feeder.Aborted?) && s.downloader.Finished? && s.parser.Finished? && DatabaseEnded(s.database)
  }

  predicate Run<H(==), B(==), C(==)>(j: Job<H, B, C>, t: seq<State<H, B, C>>): (b: bool)
    ensures b ==> t != []
  {
    && t != [] && t[0] == Init()
    && forall i :: 0 <= i < |t| - 1 ==> Next(j, t[i], t[i + 1])
  }

  function Final<H, B, C>(t: seq<State<H, B, C>>): (s: State<H, B, C>)
    requires t != []
  {
    t[|t| - 1]
  }

  // ---------------------------------------------------------------- invariant

  /** A channel between somebody who put `put` of the items on it and somebody who got `got` of them. */
  ghost predicate LinkInv<T>(items: seq<T>, put: nat, slot: Slot<T>, got: nat, receiverGone: bool)
  {
    && got <= put <= got + 1 && put <= |items|
    && match slot
       case Item(x) => put == got + 1 && x == items[got]
       case Empty => receiverGone || put == got
       case Stop => put == got
  }

  ghost predicate StageInv<X, Y>(xs: seq<X>, ys: seq<Y>, stage: Stage<X, Y>, got: nat, put: nat)
  {
    && put <= got <= put + 1 && got <= |xs| == |ys|
    && match stage
       case Working(x) => got == put + 1 && x == xs[put]
       case Sending(y) => got == put + 1 && y == ys[put]
       case Finished(ok) => ok ==> got == put
       case _ => got == put
  }

  ghost predicate DatabaseInv<C>(height: C -> nat, cs: seq<C>, d: Database<C>, got: nat, stored: seq<C>)
  {
    && got <= |cs|
    && match d
       case Inserting(c) => 0 < got && c == cs[got - 1] && height(c) != 0 && stored == Kept(height, cs[..got - 1])
       case Failed => 0 < got && stored == Kept(height, cs[..got - 1])
       case _ => stored == Kept(height, cs[..got])
  }

  ghost predicate FeederInv<H, B, C>(j: Job<H, B, C>, s: State<H, B, C>)
  {
    && (s.toDownloader.Stop? ==> s.feeder == Fed(true))
    && (s.feeder.Stopping? ==> s.fed == |j.headers|)
    && (s.feeder == Fed(true) ==>
          && s.downloaderGot == |j.headers|
          && (s.toDownloader.Stop? || s.downloader.Closing? || s.downloader.Finished?))
    && (s.feeder == Fed(false) ==> s.downloader.Finished?)
  }

  ghost predicate Inv<H, B, C>(j: Job<H, B, C>, s: State<H, B, C>)
  {
    && LinkInv(j.headers, s.fed, s.toDownloader, s.downloaderGot, s.downloader.Finished?)
    && StageInv(j.headers, Blocks(j), s.downloader, s.downloaderGot, s.downloaderPut)
    && LinkInv(Blocks(j), s.downloaderPut, s.toParser, s.parserGot, s.parser.Finished?)
    && StageInv(Blocks(j), Images(j), s.parser, s.parserGot, s.parserPut)
    && LinkInv(Images(j), s.parserPut, s.toDatabase, s.databaseGot, DatabaseEnded(s.database))
    && DatabaseInv(j.height, Images(j), s.database, s.databaseGot, s.stored)
    && FeederInv(j, s)
    && (s.toDatabase.Stop? ==> s.parser.Finished?)
    && (s.database.Stored? ==> s.parser.Finished? && s.parserPut == s.databaseGot)
  }

  lemma StagePreserves<X, Y>(f: X -> Y, xs: seq<X>, ys: seq<Y>, up: bool, down: bool, p: Port<X, Y>, p': Port<X, Y>,
                             putUp: nat, gotDown: nat)
    requires ys == Map(f, xs) && StageStep(f, up, down, p, p')
    requires LinkInv(xs, putUp, p.input, p.got, p.stage.Finished?)
    requires StageInv(xs, ys, p.stage, p.got, p.put)
    requires LinkInv(ys, p.put, p.output, gotDown, !down)
    ensures LinkInv(xs, putUp, p'.input, p'.got, p'.stage.Finished?)
    ensures StageInv(xs, ys, p'.stage, p'.got, p'.put)
    ensures LinkInv(ys, p'.put, p'.output, gotDown, !down)
  {
  }

  lemma DownloaderPreserves<H, B, C>(j: Job<H, B, C>, s: State<H, B, C>, s': State<H, B, C>)
    requires Inv(j, s) && DownloaderStep(j, s, s')
    ensures Inv(j, s')
  {
    hide LinkInv, StageInv, DatabaseInv, Map, Blocks, Images;
    BlocksAre(j);
    StagePreserves(j.download, j.headers, Blocks(j), !s.feeder.Aborted?, !s.parser.Finished?,
                   DownloaderPort(s), DownloaderPort(s'), s.fed, s.parserGot);
    DownloaderAtEnd(j, s);
  }

  lemma BlocksAre<H, B, C>(j: Job<H, B, C>)
    ensures Blocks(j) == Map(j.download, j.headers) && Images(j) == Map(j.parse, Blocks(j))
  {
  }

  lemma DownloaderAtEnd<H, B, C>(j: Job<H, B, C>, s: State<H, B, C>)
    requires Inv(j, s)
    ensures s.fed <= |j.headers| && (s.toDownloader.Item? ==> s.downloaderGot < |j.headers|)
  {
  }

  lemma ParserPreserves<H, B, C>(j: Job<H, B, C>, s: State<H, B, C>, s': State<H, B, C>)
    requires Inv(j, s) && ParserStep(j, s, s')
    ensures Inv(j, s')
  {
    hide LinkInv, StageInv, DatabaseInv, FeederInv, Map, Blocks, Images;
    BlocksAre(j);
    StagePreserves(j.parse, Blocks(j), Images(j), !s.downloader.Finished?, !DatabaseEnded(s.database),
                   ParserPort(s), ParserPort(s'), s.downloaderPut, s.databaseGot);
    assert FeederInv(j, s') by {
      SameFeeder(j, s, s');
    }
  }

  lemma SameFeeder<H, B, C>(j: Job<H, B, C>, s: State<H, B, C>, s': State<H, B, C>)
    requires FeederInv(j, s)
    requires s'.feeder == s.feeder && s'.fed == s.fed && s'.toDownloader == s.toDownloader
    requires s'.downloader == s.downloader && s'.downloaderGot == s.downloaderGot
    ensures FeederInv(j, s')
  {
  }

  lemma DatabasePreserves<H, B, C>(j: Job<H, B, C>, s: State<H, B, C>, s': State<H, B, C>)
    requires Inv(j, s) && DatabaseStep(j, s, s')
    ensures Inv(j, s')
  {
    hide StageInv, FeederInv, Map, Blocks, Images;
    SameFeeder(j, s, s');
    var cs, n := Images(j), s.databaseGot;
    if n < |cs| {
      assert cs[..n + 1][..n] == cs[..n];
    }
    if 0 < n {
      assert cs[..n][..n - 1] == cs[..n - 1];
    }
  }

  lemma FeederPreserves<H, B, C>(j: Job<H, B, C>, s: State<H, B, C>, s': State<H, B, C>)
    requires Inv(j, s) && FeederStep(j, s, s')
    ensures Inv(j, s')
  {
    hide StageInv, DatabaseInv, Map, Blocks, Images;
  }

  lemma {:induction false} RunInv<H, B, C>(j: Job<H, B, C>, t: seq<State<H, B, C>>, i: nat)
    requires Run(j, t) && i < |t|
    ensures Inv(j, t[i])
  {
    if i > 0 {
      RunInv(j, t, i - 1);
      var s, s' := t[i - 1], t[i];
      assert Next(j, t[i - 1], t[i - 1 + 1]);
      hide Inv, FeederStep, DownloaderStep, ParserStep, DatabaseStep;
      if FeederStep(j, s, s') {
        FeederPreserves(j, s, s');
      } else if DownloaderStep(j, s, s') {
        DownloaderPreserves(j, s, s');
      } else if ParserStep(j, s, s') {
        ParserPreserves(j, s, s');
      } else {
        DatabasePreserves(j, s, s');
      }
    }
  }

  // ---------------------------------------------------------------- safety, progress, termination

  /** In every state of every run the database holds the images of a prefix of the headers, in order. */
  lemma StoredIsPrefix<H, B, C>(j: Job<H, B, C>, t: seq<State<H, B, C>>, i: nat) returns (k: nat)
    requires Run(j, t) && i < |t|
    ensures k <= |j.headers| && t[i].stored == Kept(j.height, Images(j)[..k])
    ensures forall c :: c in t[i].stored <==> c in Images(j)[..k] && j.height(c) != 0
    ensures (forall c :: c in Images(j)[..k] ==> j.height(c) != 0) ==> t[i].stored == Images(j)[..k]
  {
    hide Run, LinkInv, StageInv, FeederInv, Kept, Images;
    RunInv(j, t, i);
    var s := t[i];
    k := if s.database.Inserting? || s.database.Failed? then s.databaseGot - 1 else s.databaseGot;
    var front := Images(j)[..k];
    forall c
      ensures c in s.stored <==> c in front && j.height(c) != 0
    {
      KeptMembers(j.height, front, c);
    }
    if forall c :: c in front ==> j.height(c) != 0 {
      KeptAll(j.height, front);
    }
  }

  lemma {:induction false} KeptMembers<C>(height: C -> nat, cs: seq<C>, c: C)
    ensures c in Kept(height, cs) <==> c in cs && height(c) != 0
  {
    if cs != [] {
      KeptMembers(height, cs[..|cs| - 1], c);
      assert cs == cs[..|cs| - 1] + [cs[|cs| - 1]];
    }
  }

  /** A stage that is not done can move, or waits for its neighbours. */
  lemma StageMoves<X, Y>(f: X -> Y, up: bool, down: bool, p: Port<X, Y>) returns (p': Port<X, Y>)
    requires !p.stage.Finished?
    requires p.stage.Receiving? ==> p.input != Empty || !up
    requires p.stage.Sending? || p.stage.Closing? ==> p.output == Empty || !down
    ensures StageStep(f, up, down, p, p')
  {
    match p.stage
    case Receiving =>
      match p.input {
        case Item(x) => p' := p.(stage := Working(x), input := Empty, got := p.got + 1);
        case Stop => p' := p.(stage := Closing, input := Empty);
        case Empty => p' := p.(stage := Closing);
      }
    case Working(x) => p' := p.(stage := Sending(f(x)));
    case Sending(y) =>
      p' := if down then p.(stage := Receiving, output := Item(y), put := p.put + 1)
            else p.(stage := Finished(false), input := Empty);
    case Closing =>
      p' := if down then p.(stage := Finished(true), output := Stop, input := Empty)
            else p.(stage := Finished(false), input := Empty);
  }

  lemma FeederMoves<H, B, C>(j: Job<H, B, C>, s: State<H, B, C>) returns (s': State<H, B, C>)
    requires !s.feeder.Fed? && !s.feeder.Aborted? && (s.downloader.Finished? || s.toDownloader == Empty)
    ensures FeederStep(j, s, s')
  {
    var down := !s.downloader.Finished?;
    match s.feeder
    case Reading => s' := s.(feeder := Feeding);
    case Feeding =>
      s' := if s.fed >= |j.headers| then s.(feeder := Stopping)
            else if down then s.(toDownloader := Item(j.headers[s.fed]), fed := s.fed + 1)
            else s.(feeder := Fed(false));
    case Stopping =>
      s' := if down then s.(toDownloader := Stop, feeder := Fed(true)) else s.(feeder := Fed(false));
  }

  lemma DatabaseMoves<H, B, C>(j: Job<H, B, C>, s: State<H, B, C>) returns (s': State<H, B, C>)
    requires s.database.Inserting? || (s.database.Waiting? && (s.toDatabase != Empty || s.parser.Finished?))
    ensures DatabaseStep(j, s, s')
  {
    match s.database
    case Inserting(c) => s' := s.(database := Waiting, stored := s.stored + [c]);
    case Waiting =>
      match s.toDatabase
      case Item(c) =>
        s' := s.(database := if j.height(c) == 0 then Waiting else Inserting(c), toDatabase := Empty,
              databaseGot := s.databaseGot + 1);
      case Stop => s' := s.(database := Stored, toDatabase := Empty);
      case Empty => s' := s.(database := Stored);
  }

  /** No deadlock: as long as somebody is not done, somebody can move. */
  lemma SomebodyMoves<H, B, C>(j: Job<H, B, C>, t: seq<State<H, B, C>>) returns (s': State<H, B, C>)
    requires Run(j, t) && !Terminal(Final(t))
    ensures Next(j, Final(t), s')
  {
    var s := Final(t);
    RunInv(j, t, |t| - 1);
    hide LinkInv, StageInv, DatabaseInv, StageStep, FeederStep, DatabaseStep, Blocks, Images, Run;
    if s.database.Inserting? || (s.database.Waiting? && (s.toDatabase != Empty || s.parser.Finished?)) {
      s' := DatabaseMoves(j, s);
    } else if !s.parser.Finished? && !(s.parser.Receiving? && s.toParser == Empty && !s.downloader.Finished?) {
      var p := StageMoves(j.parse, !s.downloader.Finished?, !DatabaseEnded(s.database), ParserPort(s));
      s' := SetParser(s, p);
      assert ParserPort(s') == p;
    } else if !s.downloader.Finished? && !(s.downloader.Receiving? && s.toDownloader == Empty && !s.feeder.Aborted?) {
      var p := StageMoves(j.download, !s.feeder.Aborted?, !s.parser.Finished?, DownloaderPort(s));
      s' := SetDownloader(s, p);
      assert DownloaderPort(s') == p;
    } else {
      s' := FeederMoves(j, s);
    }
  }

  // How much work is left.

  function SlotWork<T>(slot: Slot<T>, item: nat): (n: nat)
  {
    match slot case Empty => 0 case Stop => 1 case Item(_) => item
  }

  function StageWork<X, Y>(stage: Stage<X, Y>, item: nat): (n: nat)
  {
    match stage
    case Receiving => 3
    case Working(_) => 4 + item
    case Sending(_) => 3 + item
    case Closing => 2
    case Finished(_) => 0
  }

  function FeederWork(f: Feeder, left: nat): (n: nat)
  {
    match f
    case Reading => 5 + 10 * left
    case Feeding => 4 + 10 * left
    case Stopping => 3
    case _ => 0
  }

  function DatabaseWork<C>(d: Database<C>): (n: nat)
  {
    match d case Waiting => 1 case Inserting(_) => 2 case _ => 0
  }

  function Work<H, B, C>(j: Job<H, B, C>, s: State<H, B, C>): (n: nat)
  {
    FeederWork(s.feeder, if s.fed <= |j.headers| then |j.headers| - s.fed else 0)
    + SlotWork(s.toDownloader, 9) + StageWork(s.downloader, 7) + SlotWork(s.toParser, 6)
    + StageWork(s.parser, 4) + SlotWork(s.toDatabase, 3) + DatabaseWork(s.database)
  }

  lemma StageWorks<X, Y>(f: X -> Y, up: bool, down: bool, p: Port<X, Y>, p': Port<X, Y>, item: nat)
    requires StageStep(f, up, down, p, p') && 2 <= item
    ensures SlotWork(p'.input, item + 2) + StageWork(p'.stage, item) + SlotWork(p'.output, item - 1)
          < SlotWork(p.input, item + 2) + StageWork(p.stage, item) + SlotWork(p.output, item - 1)
  {
  }

  lemma FeederWorks<H, B, C>(j: Job<H, B, C>, s: State<H, B, C>, s': State<H, B, C>)
    requires FeederStep(j, s, s')
    ensures Work(j, s') < Work(j, s)
  {
    hide StageWork, DatabaseWork;
  }

  lemma DatabaseWorks<H, B, C>(j: Job<H, B, C>, s: State<H, B, C>, s': State<H, B, C>)
    requires DatabaseStep(j, s, s')
    ensures Work(j, s') < Work(j, s)
  {
    hide StageWork, FeederWork;
  }

  lemma StepWorks<H, B, C>(j: Job<H, B, C>, s: State<H, B, C>, s': State<H, B, C>)
    requires Next(j, s, s')
    ensures Work(j, s') < Work(j, s)
  {
    hide StageStep, FeederStep, DatabaseStep, FeederWork, DatabaseWork, SlotWork, StageWork;
    if FeederStep(j, s, s') {
      FeederWorks(j, s, s');
    } else if DatabaseStep(j, s, s') {
      DatabaseWorks(j, s, s');
    } else if DownloaderStep(j, s, s') {
      StageWorks(j.download, !s.feeder.Aborted?, !s.parser.Finished?, DownloaderPort(s), DownloaderPort(s'), 7);
    } else {
      StageWorks(j.parse, !s.downloader.Finished?, !DatabaseEnded(s.database), ParserPort(s), ParserPort(s'), 4);
    }
  }

  /** Every run ends: it has at most ten steps per header, and twelve more. */
  lemma {:induction false} RunsEnd<H, B, C>(j: Job<H, B, C>, t: seq<State<H, B, C>>, i: nat)
    requires Run(j, t) && i < |t|
    ensures Work(j, t[i]) + i <= 10 * |j.headers| + 12
  {
    if i > 0 {
      RunsEnd(j, t, i - 1);
      assert Next(j, t[i - 1], t[i - 1 + 1]);
      hide Work, Next;
      StepWorks(j, t[i - 1], t[i]);
    }
  }

  // ---------------------------------------------------------------- the result

  datatype SyncError = HeaderReadFailed | TrySyncAgain | CoordinatorClosed

  datatype SyncResult = Synced(height: nat) | NotSynced(error: SyncError)

  /** The height of the last block processed; the tip that the database had, if none was. */
  function LastHeight<C>(height: C -> nat, stored: seq<C>, dbHeight: nat): (h: nat)
  {
    if stored == [] then dbHeight else height(stored[|stored| - 1])
  }

  /** What the caller returns once the threads are joined. */
  function Outcome<H, B, C>(j: Job<H, B, C>, s: State<H, B, C>, dbHeight: nat, endBlock: nat): (r: SyncResult)
    requires Terminal(s)
  {
    var last := LastHeight(j.height, s.stored, dbHeight);
    if s.feeder.Aborted? then NotSynced(HeaderReadFailed)
    else if s.database.CoordinatorGone? then NotSynced(CoordinatorClosed)
    else if s.database.Failed? then NotSynced(TrySyncAgain)
    else if last < endBlock then NotSynced(TrySyncAgain)
    else if s.feeder == Fed(false) then NotSynced(TrySyncAgain)
    else Synced(last)
  }

  /** Success means that no thread failed and that the last block stored, or the old tip, is at the end. */
  lemma SyncedIff<H, B, C>(j: Job<H, B, C>, s: State<H, B, C>, dbHeight: nat, endBlock: nat, h: nat)
    requires Terminal(s)
    ensures Outcome(j, s, dbHeight, endBlock) == Synced(h) <==>
              && s.feeder == Fed(true) && s.database == Stored && endBlock <= h
              && h == (if s.stored == [] then dbHeight else j.height(s.stored[|s.stored| - 1]))
    ensures Outcome(j, s, dbHeight, endBlock).NotSynced? ==>
              Outcome(j, s, dbHeight, endBlock) == NotSynced(
                if s.feeder.Aborted? then HeaderReadFailed
                else if s.database == CoordinatorGone then CoordinatorClosed else TrySyncAgain)
  {
  }

  /** The headers are those of the heights after `start`, up to `endBlock` at most. */
  ghost predicate HeadersFrom<H, B, C>(j: Job<H, B, C>, start: nat, endBlock: nat)
  {
    && (j.headers != [] ==> start + |j.headers| <= endBlock)
    && forall i :: 0 <= i < |j.headers| ==> j.height(Images(j)[i]) == start + 1 + i
  }

  lemma {:induction false} KeptAll<C>(height: C -> nat, cs: seq<C>)
    requires forall i :: 0 <= i < |cs| ==> height(cs[i]) != 0
    ensures Kept(height, cs) == cs
  {
    if cs != [] {
      KeptAll(height, cs[..|cs| - 1]);
    }
  }

  /** A run whose headers were all fed has at most three of them between the feeder and the database. */
  lemma InTransit<H, B, C>(j: Job<H, B, C>, t: seq<State<H, B, C>>)
    requires Run(j, t)
    ensures var s := Final(t);
            s.feeder == Fed(true) && s.database.Stored? ==>
              s.databaseGot <= |j.headers| <= s.databaseGot + 3
                  && s.stored == Kept(j.height, Images(j)[..s.databaseGot])
  {
    hide Kept, Images, Blocks, Next;
    RunInv(j, t, |t| - 1);
  }

  /**
    When the database was behind, a successful sync has stored every block up to the
    end.  It also has when there were four headers or more, whatever the database held.
   */
  lemma SyncedMeansStored<H, B, C>(j: Job<H, B, C>, t: seq<State<H, B, C>>, start: nat, endBlock: nat, dbHeight: nat)
    requires Run(j, t) && Terminal(Final(t)) && HeadersFrom(j, start, endBlock)
    requires Outcome(j, Final(t), dbHeight, endBlock).Synced?
    requires dbHeight < endBlock || j.headers == [] || |j.headers| >= 4
    ensures Final(t).stored == Images(j)
    ensures dbHeight < endBlock || |j.headers| >= 4 ==> start + |j.headers| == endBlock
    ensures dbHeight < endBlock || |j.headers| >= 4 ==> Outcome(j, Final(t), dbHeight, endBlock) == Synced(endBlock)
  {
    hide Kept, Images, Next;
    var s := Final(t);
    InTransit(j, t);
    RunInv(j, t, |t| - 1);
    var k := s.databaseGot;
    KeptAll(j.height, Images(j)[..k]);
    if k == |j.headers| {
      assert Images(j)[..k] == Images(j);
    }
  }

  // A run that succeeds without storing anything: the parser fails on the first block when
  // everything has been fed.

  lemma Extend<H, B, C>(j: Job<H, B, C>, t: seq<State<H, B, C>>, s: State<H, B, C>) returns (t': seq<State<H, B, C>>)
    requires Run(j, t) && Next(j, Final(t), s)
    ensures Run(j, t') && Final(t') == s
  {
    t' := t + [s];
  }

  /** The first block is being parsed; everything else is idle. */
  function Parsing<H, B, C>(j: Job<H, B, C>): (s: State<H, B, C>)
    requires j.headers != []
  {
    State(Feeding, 1, Empty, Receiving, 1, 1, Empty, Working(j.download(j.headers[0])), 1, 0, Empty, Waiting, 0, [])
  }

  lemma RunToParsing<H, B, C>(j: Job<H, B, C>) returns (t: seq<State<H, B, C>>)
    requires j.headers != []
    ensures Run(j, t) && Final(t) == Parsing(j)
  {
    hide Run;
    var h, b := j.headers[0], j.download(j.headers[0]);
    var s0: State<H, B, C> := Init();
    var s1 := s0.(feeder := Feeding);
    var s2 := s1.(toDownloader := Item(h), fed := 1);
    var s3 := s2.(toDownloader := Empty, downloader := Working(h), downloaderGot := 1);
    var s4 := s3.(downloader := Sending(b));
    var s5 := s4.(downloader := Receiving, downloaderPut := 1, toParser := Item(b));
    t := StartRun(j);
    t := Extend(j, t, s1);
    t := Extend(j, t, s2);
    t := Extend(j, t, s3);
    t := Extend(j, t, s4);
    t := Extend(j, t, s5);
    t := Extend(j, t, Parsing(j));
  }

  lemma StartRun<H, B, C>(j: Job<H, B, C>) returns (t: seq<State<H, B, C>>)
    ensures Run(j, t) && Final(t) == Init()
  {
    t := [Init()];
  }

  /** One more header goes to the downloader, which is idle. */
  lemma FeedOne<H, B, C>(j: Job<H, B, C>, t: seq<State<H, B, C>>, s: State<H, B, C>) returns (t': seq<State<H, B, C>>)
    requires Run(j, t) && Final(t) == s
    requires s.feeder.Feeding? && s.fed < |j.headers| && s.downloader.Receiving? && s.toDownloader.Empty?
    ensures Run(j, t')
    ensures Final(t') == s.(fed := s.fed + 1, downloader := Working(j.headers[s.fed]),
              downloaderGot := s.downloaderGot + 1)
  {
    hide Run;
    var h := j.headers[s.fed];
    var s1 := s.(toDownloader := Item(h), fed := s.fed + 1);
    t' := Extend(j, t, s1);
    t' := Extend(j, t', s1.(toDownloader := Empty, downloader := Working(h), downloaderGot := s.downloaderGot + 1));
  }

  lemma PutOne<H, B, C>(j: Job<H, B, C>, t: seq<State<H, B, C>>, s: State<H, B, C>) returns (t': seq<State<H, B, C>>)
    requires Run(j, t) && Final(t) == s
    requires s.downloader.Working? && s.toParser.Empty? && !s.parser.Finished?
    ensures Run(j, t')
    ensures Final(t') == s.(downloader := Receiving, downloaderPut := s.downloaderPut + 1,
              toParser := Item(j.download(s.downloader.item)))
  {
    hide Run;
    var b := j.download(s.downloader.item);
    var s1 := s.(downloader := Sending(b));
    t' := Extend(j, t, s1);
    t' := Extend(j, t', s1.(downloader := Receiving, downloaderPut := s.downloaderPut + 1, toParser := Item(b)));
  }

  /** Everything is fed, the parser fails, then the downloader, and the database sees the end. */
  lemma FailSilently<H, B, C>(j: Job<H, B, C>, t: seq<State<H, B, C>>, s: State<H, B, C>)
    returns (t': seq<State<H, B, C>>)
    requires Run(j, t) && Final(t) == s
    requires s.feeder.Feeding? && s.fed >= |j.headers| && s.toDownloader.Empty? && s.parser.Working?
    requires s.downloader.Working? || s.downloader.Receiving?
    requires s.toDatabase.Empty? && s.database.Waiting? && s.stored == []
    ensures Run(j, t')
    ensures var f := Final(t'); Terminal(f) && f.feeder == Fed(true) && f.database.Stored? && f.stored == []
  {
    hide Run;
    var s1 := s.(feeder := Stopping);
    var s2 := s1.(feeder := Fed(true), toDownloader := Stop);
    var s3 := s2.(parser := Finished(false), toParser := Empty);
    t' := Extend(j, t, s1);
    t' := Extend(j, t', s2);
    t' := Extend(j, t', s3);
    var s4 := s3.(downloader := Finished(false), toDownloader := Empty);
    if s.downloader.Receiving? {
      var c := s3.(downloader := Closing, toDownloader := Empty);
      t' := Extend(j, t', c);
    }
    t' := Extend(j, t', s4);
    t' := Extend(j, t', s4.(database := Stored));
  }

  lemma SilentRun<H, B, C>(j: Job<H, B, C>) returns (t: seq<State<H, B, C>>)
    requires 1 <= |j.headers| <= 3
    ensures Run(j, t)
    ensures var f := Final(t); Terminal(f) && f.feeder == Fed(true) && f.database.Stored? && f.stored == []
  {
    hide Run, Next;
    t := RunToParsing(j);
    if |j.headers| >= 2 {
      t := FeedOne(j, t, Final(t));
    }
    if |j.headers| == 3 {
      t := PutOne(j, t, Final(t));
      t := FeedOne(j, t, Final(t));
    }
    t := FailSilently(j, t, Final(t));
  }

  /** Does every successful run store the image of every header? */
  ghost predicate SuccessIsComplete<H(!new), B(!new), C(!new)>(j: Job<H, B, C>, dbHeight: nat, endBlock: nat)
  {
    forall t: seq<State<H, B, C>> {:trigger Run(j, t)} ::
      Run(j, t) && Terminal(Final(t)) && Outcome(j, Final(t), dbHeight, endBlock).Synced? ==>
        Final(t).stored == Images(j)
  }

  /**
    A successful sync has stored everything exactly when the database was behind the
    end, there was nothing to do, or there are more headers than fit in the pipeline.
    Otherwise the tip that the database already had hides a failed download.
   */
  lemma SuccessIsCompleteIff<H(!new), B(!new), C(!new)>(j: Job<H, B, C>, start: nat, endBlock: nat, dbHeight: nat)
    requires HeadersFrom(j, start, endBlock)
    ensures SuccessIsComplete(j, dbHeight, endBlock) <==> dbHeight < endBlock || j.headers == [] || |j.headers| >= 4
  {
    hide Run, Images, HeadersFrom;
    if dbHeight < endBlock || j.headers == [] || |j.headers| >= 4 {
      forall t: seq<State<H, B, C>> | Run(j, t) && Terminal(Final(t))
          && Outcome(j, Final(t), dbHeight, endBlock).Synced?
        ensures Final(t).stored == Images(j)
      {
        SyncedMeansStored(j, t, start, endBlock, dbHeight);
      }
    } else {
      var t := SilentRun(j);
      assert Outcome(j, Final(t), dbHeight, endBlock) == Synced(dbHeight);
    }
  }

  // ---------------------------------------------------------------- heights

  datatype Row<+H> = Row(height: nat, header: H)

  datatype Plan = HaveBlock(height: nat) | CaughtUp(height: nat) | Fetch(start: nat, endBlock: nat)

  function Lower(a: nat, b: nat): (c: nat)
  {
    if a < b then a else b
  }

  /**
    Which blocks to fetch.  `dbHeight` is the height of the database tip, `syncHeight`
    the height up to which the headers survived a reorganization, `headersEnd` the
    height of the newest header; `headerAtEnd` says whether the header at the chosen
    end can be read.
   */
  datatype Request = Request(
    dbHeight: nat, syncHeight: nat, headersEnd: nat, target: Option<nat>, maxBlocks: Option<nat>, headerAtEnd: bool)

  /** The lower of both tips. */
  function StartOf(q: Request): (start: nat)
    ensures start <= q.dbHeight && start <= q.syncHeight && (start == q.dbHeight || start == q.syncHeight)
  {
    Lower(q.dbHeight, q.syncHeight)
  }

  /** The lowest of what there is, what is wanted and what is allowed. */
  function EndOf(q: Request): (endBlock: nat)
  {
    var wanted := if q.target.Some? then Lower(q.target.value, q.headersEnd) else q.headersEnd;
    if q.maxBlocks.Some? then Lower(StartOf(q) + q.maxBlocks.value, wanted) else wanted
  }

  function PlanOf(q: Request): (plan: Plan)
  {
    if EndOf(q) < StartOf(q) && q.headerAtEnd then HaveBlock(EndOf(q))
    else if StartOf(q) == q.dbHeight == EndOf(q) then CaughtUp(q.dbHeight)
    else Fetch(StartOf(q), EndOf(q))
  }

  /**
    What a range from `start` to `endBlock` has to be: it starts at the lower of both tips,
    and it goes as far as headers, target and allowance let it.
   */
  ghost predicate Longest(q: Request, start: nat, endBlock: nat)
  {
    && start <= q.dbHeight && start <= q.syncHeight && start in {q.dbHeight, q.syncHeight}
    && endBlock <= q.headersEnd
    && (q.target.Some? ==> endBlock <= q.target.value)
    && (q.maxBlocks.Some? ==> endBlock <= start + q.maxBlocks.value)
    && (|| endBlock == q.headersEnd || q.target == Some(endBlock)
        || (q.maxBlocks.Some? && endBlock == start + q.maxBlocks.value))
  }

  /** Such a range is unique. */
  lemma LongestIsUnique(q: Request, start: nat, endBlock: nat)
    ensures Longest(q, start, endBlock) <==> start == StartOf(q) && endBlock == EndOf(q)
  {
  }

  /**
    The lower of the tips of database and headers is where fetching starts, so that
    reorganized heights are fetched again.  Nothing is fetched only when the database is
    at the end and no header was reorganized, or when the end lies below both tips.
   */
  method PlanSync(q: Request) returns (plan: Plan)
    ensures plan == PlanOf(q)
    ensures plan.Fetch? ==> Longest(q, plan.start, plan.endBlock)
    ensures plan.CaughtUp? ==>
              plan.height == q.dbHeight <= q.syncHeight && Longest(q, q.dbHeight, q.dbHeight)
    ensures plan.HaveBlock? ==>
              && q.headerAtEnd && plan.height < q.dbHeight && plan.height < q.syncHeight
              && exists start :: Longest(q, start, plan.height)
    ensures q.dbHeight > q.syncHeight && q.headersEnd > q.syncHeight && q.target.None? && q.maxBlocks.None? ==>
              plan == Fetch(q.syncHeight, q.headersEnd)
  {
    LongestIsUnique(q, StartOf(q), EndOf(q));
    var endBlock := q.headersEnd;
    var start := q.syncHeight;
    if q.dbHeight < start {
      start := q.dbHeight;
    }
    if q.target.Some? && q.target.value < endBlock {
      endBlock := q.target.value;
    }
    if q.maxBlocks.Some? && start + q.maxBlocks.value < endBlock {
      endBlock := start + q.maxBlocks.value;
    }
    if endBlock < start && q.headerAtEnd {
      return HaveBlock(endBlock);
    }
    if start == q.dbHeight && q.dbHeight == endBlock {
      return CaughtUp(q.dbHeight);
    }
    plan := Fetch(start, endBlock);
  }

  /** The answer of the header table for a range: heights in the range, in ascending order. */
  ghost predicate IsAnswer<H>(rows: seq<Row<H>>, start: nat, endBlock: nat)
  {
    && (forall i :: 0 <= i < |rows| ==> start <= rows[i].height < endBlock)
    && (forall i, k :: 0 <= i < k < |rows| ==> rows[i].height < rows[k].height)
  }

  /** `headers` are the rows from `start` on, up to the first gap. */
  ghost predicate IsRead<H>(rows: seq<Row<H>>, start: nat, headers: seq<Row<H>>)
  {
    && headers <= rows
    && (forall i :: 0 <= i < |headers| ==> headers[i].height == start + i)
    && (forall i :: |headers| <= i < |rows| ==> rows[i].height != start + |headers|)
  }

  method ReadHeaders<H>(rows: seq<Row<H>>, start: nat, endBlock: nat) returns (headers: seq<Row<H>>)
    requires IsAnswer(rows, start, endBlock)
    ensures IsRead(rows, start, headers)
  {
    headers := [];
    var nextHeight := start;
    for i := 0 to |rows|
      invariant headers == rows[..i] && nextHeight == start + i
      invariant forall k :: 0 <= k < i ==> rows[k].height == start + k
    {
      if rows[i].height != nextHeight {
        assert 0 < i ==> rows[i - 1].height < rows[i].height;
        assert forall k :: i <= k < |rows| ==> rows[i].height <= rows[k].height;
        return;
      }
      nextHeight := nextHeight + 1;
      headers := headers + [rows[i]];
    }
  }

  /** The block of a header has the height of the header. */
  ghost predicate KeepsHeight<H(!new), B(!new), C(!new)>(j: Job<Row<H>, B, C>)
  {
    forall r: Row<H> :: j.height(j.parse(j.download(r))) == r.height
  }

  /** The job of a request that has to fetch, on the headers that the table yields. */
  ghost predicate Fetches<H(!new), B(!new), C(!new)>(q: Request, rows: seq<Row<H>>, j: Job<Row<H>, B, C>)
  {
    && PlanOf(q).Fetch? && KeepsHeight(j)
    && IsAnswer(rows, StartOf(q) + 1, EndOf(q) + 1) && IsRead(rows, StartOf(q) + 1, j.headers)
  }

  lemma ReadFrom<H(!new), B(!new), C(!new)>(q: Request, rows: seq<Row<H>>, j: Job<Row<H>, B, C>)
    requires Fetches(q, rows, j)
    ensures HeadersFrom(j, StartOf(q), EndOf(q))
  {
    if j.headers != [] {
      assert rows[|j.headers| - 1].height == StartOf(q) + |j.headers|;
    }
  }

  /**
    The whole of `sync_with_indexer` when it fetches: if it succeeds and the database was
    behind the end, or there were four headers or more, it returns the end, and every
    height above either tip, up to the end, is stored, once, as the block of its header:
    also the heights that were reorganized.
   */
  lemma EveryHeightStored<H(!new), B(!new), C(!new)>(
      q: Request, rows: seq<Row<H>>, j: Job<Row<H>, B, C>, t: seq<State<Row<H>, B, C>>, h: nat) returns (i: nat)
    requires Fetches(q, rows, j) && Run(j, t) && Terminal(Final(t))
    requires Outcome(j, Final(t), q.dbHeight, EndOf(q)).Synced?
    requires q.dbHeight < EndOf(q) || |j.headers| >= 4
    requires (q.dbHeight < h || q.syncHeight < h) && h <= EndOf(q)
    ensures Outcome(j, Final(t), q.dbHeight, EndOf(q)) == Synced(EndOf(q))
    ensures |Final(t).stored| == |j.headers|
    ensures forall k :: 0 <= k < |j.headers| && j.height(Final(t).stored[k]) == h <==> k == i
    ensures i < |j.headers| && j.headers[i].height == h && Final(t).stored[i] == j.parse(j.download(j.headers[i]))
  {
    hide Run;
    ReadFrom(q, rows, j);
    SyncedMeansStored(j, t, StartOf(q), EndOf(q), q.dbHeight);
    i := h - StartOf(q) - 1;
  }

  /** A request that fetches gets complete successes exactly under this condition, known before the run. */
  lemma FetchIsCompleteIff<H(!new), B(!new), C(!new)>(q: Request, rows: seq<Row<H>>, j: Job<Row<H>, B, C>)
    requires Fetches(q, rows, j)
    ensures SuccessIsComplete(j, q.dbHeight, EndOf(q))
       <==> q.dbHeight < EndOf(q) || j.headers == [] || |j.headers| >= 4
  {
    hide Run, SuccessIsComplete, HeadersFrom, Fetches;
    ReadFrom(q, rows, j);
    SuccessIsCompleteIff(j, StartOf(q), EndOf(q), q.dbHeight);
  }
}
