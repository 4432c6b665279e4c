/** The handlers of the main server that tie the pieces together: a serial
    line is decoded, appended to the data file, and only once the write has
    succeeded broadcast to the OPEN viewers; a clear request overwrites the
    file and, on success, tells the OPEN viewers. */
module Server {
  import opened Wrappers
  import opened Readings
  import opened Decoder
  import opened History
  import opened Clients

  /** Everything the handlers change: the data file and the viewers. */
  datatype World = World(file: FileState, clients: seq<Client>)

  /** How the handling of one serial line ended: the line was not a
      reading, the data file could not be read, it could not be written, or
      the reading was stored and broadcast. */
  datatype LineOutcome = Dropped | NotRead | NotWritten | Stored(reading: Reading)

  /** The JSON body of an HTTP reply: `{message: ...}` or `{error: ...}`. */
  datatype Body = MessageBody(message: string) | ErrorBody(error: string)

  datatype Response = Response(status: int, body: Body)

  const ClearedText: string := "Historical data cleared"
  const ClearFailedText: string := "Failed to clear data file"

  /** The `data` handler of the serial parser, as a function of the world
      before it. */
  function OnLine(w: World, line: string, now: int, io: Io): (World, LineOutcome) {
    match Decode(line, now)
    case None => (w, Dropped)
    case Some(r) => OnReading(w, r, io)
  }

  /** The callback chain for an accepted reading: read the file, write the
      sorted history back, and only in the write's success branch
      broadcast. */
  function OnReading(w: World, r: Reading, io: Io): (World, LineOutcome) {
    var (f, res) := AppendSpec(w.file, r, io);
    if res == ReadFailed then (w, NotRead)
    else if res == WriteFailed then (w, NotWritten)
    else (World(f, DeliverAll(w.clients, NewReading(r))), Stored(r))
  }

  /** `POST /api/clear-data`, as a function of the world before it. */
  function OnClear(w: World, writeFails: bool): (World, Response) {
    if writeFails then (w, Response(500, ErrorBody(ClearFailedText)))
    else (World(Valid([]), DeliverAll(w.clients, DataCleared)), Response(200, MessageBody(ClearedText)))
  }

  /** The serial `data` handler over the live store and viewers. */
  method HandleLine(store: Store, registry: Registry, line: string, now: int, io: Io)
    returns (outcome: LineOutcome)
    modifies store, registry
    ensures (World(store.file, registry.clients), outcome)
            == OnLine(World(old(store.file), old(registry.clients)), line, now, io)
  {
    var decoded := DecodeLine(line, now);
    if decoded.None? {
      return Dropped;
    }
    var r := decoded.value;
    var res := store.Append(r, io);
    if res == ReadFailed {
      outcome := NotRead;
    } else if res == WriteFailed {
      outcome := NotWritten;
    } else {
      registry.Broadcast(NewReading(r));
      outcome := Stored(r);
    }
  }

  /** `POST /api/clear-data` over the live store and viewers. */
  method HandleClear(store: Store, registry: Registry, writeFails: bool) returns (response: Response)
    modifies store, registry
    ensures (World(store.file, registry.clients), response)
            == OnClear(World(old(store.file), old(registry.clients)), writeFails)
  {
    var ok := store.Clear(writeFails);
    if !ok {
      return Response(500, ErrorBody(ClearFailedText));
    }
    response := Response(200, MessageBody(ClearedText));
    registry.Broadcast(DataCleared);
  }

  /** A line that does not decode changes nothing and sends nothing. */
  lemma DroppedLineChangesNothing(w: World, line: string, now: int, io: Io)
    requires Decode(line, now).None?
    ensures OnLine(w, line, now, io) == (w, Dropped)
  {
  }

  /** A line is stored exactly when it decodes and the file can be read
      and written. */
  lemma LineOutcomeCases(w: World, line: string, now: int, io: Io)
    ensures OnLine(w, line, now, io).1.Stored?
            <==> Decode(line, now).Some? && !io.readFails && !w.file.Absent? && !io.writeFails
    ensures OnLine(w, line, now, io).1 == NotRead
            <==> Decode(line, now).Some? && (io.readFails || w.file.Absent?)
  {
    if Decode(line, now).Some? {
      AppendOutcome(w.file, Decode(line, now).value, io);
    }
  }

  /** Nothing is sent unless the reading was written: every other outcome,
      the read error's early return and the failed write included, leaves
      the file and every viewer as they were. */
  lemma NothingSentUnlessSaved(w: World, line: string, now: int, io: Io)
    requires !OnLine(w, line, now, io).1.Stored?
    ensures OnLine(w, line, now, io).0 == w
  {
  }

  /** Persist, then notify: when a line is broadcast, the reading is the
      decoded line, it is already in the written history (which reads back
      sorted), and each OPEN viewer received it exactly once while every
      other viewer received nothing. */
  lemma BroadcastAfterPersist(w: World, line: string, now: int, io: Io)
    requires OnLine(w, line, now, io).1.Stored?
    ensures var (w', outcome) := OnLine(w, line, now, io);
            var r := outcome.reading;
            Decode(line, now) == Some(r)
            && w'.file.Valid? && r in w'.file.history && SortedByTime(w'.file.history)
            && Fetch(w'.file, false) == Json(w'.file.history)
            && |w'.clients| == |w.clients|
            && forall i :: 0 <= i < |w.clients| ==>
                 w'.clients[i].state == w.clients[i].state
                 && w'.clients[i].outbox
                    == w.clients[i].outbox + (if w.clients[i].state == Open then [NewReading(r)] else [])
  {
    var r := Decode(line, now).value;
    assert OnLine(w, line, now, io) == OnReading(w, r, io);
    PersistThenNotify(w, r, io);
  }

  /** The same at the level of the callback chain. */
  lemma PersistThenNotify(w: World, r: Reading, io: Io)
    requires OnReading(w, r, io).1.Stored?
    ensures var w' := OnReading(w, r, io).0;
            OnReading(w, r, io).1 == Stored(r)
            && w'.file.Valid? && r in w'.file.history && SortedByTime(w'.file.history)
            && Fetch(w'.file, false) == Json(w'.file.history)
            && |w'.clients| == |w.clients|
            && forall i :: 0 <= i < |w.clients| ==>
                 w'.clients[i].state == w.clients[i].state
                 && w'.clients[i].outbox
                    == w.clients[i].outbox + (if w.clients[i].state == Open then [NewReading(r)] else [])
  {
    AppendSaved(w.file, r, io);
    var h := AppendSpec(w.file, r, io).0.history;
    assert r in multiset(h);
    OnlyOpenReceive(w.clients, NewReading(r));
  }

  /** A successful clear empties the history and tells every OPEN viewer; a
      failed one answers 500 and changes nothing. */
  lemma ClearEffects(w: World, writeFails: bool)
    ensures var (w', response) := OnClear(w, writeFails);
            (response.status == 200 <==> !writeFails)
            && (writeFails ==> w' == w && response.status == 500 && response.body == ErrorBody(ClearFailedText))
            && (!writeFails ==>
                  Fetch(w'.file, false) == Json([])
                  && |w'.clients| == |w.clients|
                  && forall i :: 0 <= i < |w.clients| ==>
                       w'.clients[i].state == w.clients[i].state
                       && w'.clients[i].outbox
                       == w.clients[i].outbox + (if w.clients[i].state == Open then [DataCleared] else []))
  {
    OnlyOpenReceive(w.clients, DataCleared);
  }

  /** One serial line as it arrives: its text, its receipt time and how the
      file system behaves while it is handled. */
  datatype Arrival = Arrival(line: string, now: int, io: Io)

  /** The world after a run of lines handled one after the other. */
  function Run(w: World, arrivals: seq<Arrival>): World {
    if arrivals == [] then w
    else
      var a := arrivals[|arrivals| - 1];
      OnLine(Run(w, arrivals[..|arrivals| - 1]), a.line, a.now, a.io).0
  }

  /** How many of the lines decode. */
  function Accepted(arrivals: seq<Arrival>): (n: nat)
    ensures n <= |arrivals|
  {
    if arrivals == [] then 0
    else
      var a := arrivals[|arrivals| - 1];
      Accepted(arrivals[..|arrivals| - 1]) + (if Decode(a.line, a.now).Some? then 1 else 0)
  }

  /** While the file system does not fail, the history grows by exactly one
      reading per line that decodes and stays sorted by timestamp. */
  lemma {:induction false} RunGrowsHistory(w: World, arrivals: seq<Arrival>)
    requires w.file.Valid?
    requires forall k :: 0 <= k < |arrivals| ==> !arrivals[k].io.readFails && !arrivals[k].io.writeFails
    ensures Run(w, arrivals).file.Valid?
    ensures |Run(w, arrivals).file.history| == |w.file.history| + Accepted(arrivals)
    ensures Accepted(arrivals) > 0 || SortedByTime(w.file.history) ==> SortedByTime(Run(w, arrivals).file.history)
  {
    if arrivals != [] {
      var front, a := arrivals[..|arrivals| - 1], arrivals[|arrivals| - 1];
      assert forall k :: 0 <= k < |front| ==> front[k] == arrivals[k];
      RunGrowsHistory(w, front);
      LineGrowsHistory(Run(w, front), a);
    }
  }

  /** One line handled without file system failures. A line that decodes
      leaves the history sorted even when it was not (start-up keeps any
      file that parses); a dropped line leaves it as it was. */
  lemma LineGrowsHistory(v: World, a: Arrival)
    requires v.file.Valid?
    requires !a.io.readFails && !a.io.writeFails
    ensures var f := OnLine(v, a.line, a.now, a.io).0.file;
            f.Valid?
            && (Decode(a.line, a.now).Some? || SortedByTime(v.file.history) ==> SortedByTime(f.history))
            && |f.history| == |v.file.history| + (if Decode(a.line, a.now).Some? then 1 else 0)
            && (Decode(a.line, a.now).None? ==> f == v.file)
  {
    match Decode(a.line, a.now)
    case None =>
    case Some(r) =>
      assert OnLine(v, a.line, a.now, a.io) == OnReading(v, r, a.io);
      ReadingGrowsHistory(v, r, a.io);
  }

  lemma ReadingGrowsHistory(v: World, r: Reading, io: Io)
    requires v.file.Valid?
    requires !io.readFails && !io.writeFails
    ensures var f := OnReading(v, r, io).0.file;
            f.Valid? && SortedByTime(f.history) && |f.history| == |v.file.history| + 1
  {
    AppendSaved(v.file, r, io);
  }
}
