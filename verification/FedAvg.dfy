/** host_server/baseline_server.py: the weighted average over unmasked chunks, modulo 3329.
    Dictionaries are lists of entries in insertion order, with distinct keys. */
module FedAvg {
  import opened Words
  import opened Field
  import opened Sequences

  datatype Client = Client(id: int, completed: bool, sampleCount: int)

  /** What one client contributed: its chunks by sequence number. */
  datatype Entry = Entry(id: int, chunks: map<nat, seq<int>>)

  datatype Lookup = Absent | Found(client: Client)

  datatype AverageError = ZeroDivision | IndexError

  // ----- which clients count, and how much ---------------------------------------------

  function Find(clients: seq<Client>, id: int): (r: Lookup)
    ensures r.Found? ==> r.client in clients && r.client.id == id
    ensures r.Absent? ==> forall c :: c in clients ==> c.id != id
  {
    if clients == [] then Absent
    else if clients[|clients| - 1].id == id then Found(clients[|clients| - 1])
    else Find(clients[..|clients| - 1], id)
  }

  ghost predicate DistinctClients(clients: seq<Client>) {
    forall i, j :: 0 <= i < j < |clients| ==> clients[i].id != clients[j].id
  }

  ghost predicate DistinctEntries(entries: seq<Entry>) {
    forall i, j :: 0 <= i < j < |entries| ==> entries[i].id != entries[j].id
  }

  function Keys(entries: seq<Entry>): set<int> {
    set e | e in entries :: e.id
  }

  function Weight(c: Client): int {
    if c.sampleCount > 0 then c.sampleCount else 1
  }

  /** The weight an entry carries; zero if its client is unknown or did not complete. */
  function EntryWeight(clients: seq<Client>, e: Entry): int {
    match Find(clients, e.id)
    case Absent => 0
    case Found(c) => if c.completed then Weight(c) else 0
  }

  function Samples(clients: seq<Client>, keys: set<int>): nat {
    if clients == [] then 0
    else
      var k := |clients| - 1;
      var c := clients[k];
      Samples(clients[..k], keys) + if c.completed && c.sampleCount > 0 && c.id in keys then c.sampleCount else 0
  }

  function Completed(clients: seq<Client>, keys: set<int>): nat {
    if clients == [] then 0
    else
      var k := |clients| - 1;
      var c := clients[k];
      Completed(clients[..k], keys) + if c.completed && c.id in keys then 1 else 0
  }

  /** Completed clients without a positive sample count: averaged with weight one, but not
      counted as samples unless nobody else is. */
  function Unsampled(clients: seq<Client>, keys: set<int>): nat {
    if clients == [] then 0
    else
      var k := |clients| - 1;
      var c := clients[k];
      Unsampled(clients[..k], keys) + if c.completed && c.sampleCount <= 0 && c.id in keys then 1 else 0
  }

  /** The divisor of the average. */
  function TotalSamples(clients: seq<Client>, keys: set<int>): nat {
    var s := Samples(clients, keys);
    if s == 0 then Completed(clients, keys) else s
  }

  // ----- the average ------------------------------------------------------------------

  function ChunkValue(chunks: map<nat, seq<int>>, s: nat, j: nat): int {
    if s in chunks && j < |chunks[s]| then chunks[s][j] else 0
  }

  function WeightedSum(clients: seq<Client>, entries: seq<Entry>, s: nat, j: nat): int {
    if entries == [] then 0
    else
      var k := |entries| - 1;
      WeightedSum(clients, entries[..k], s, j) + ChunkValue(entries[k].chunks, s, j) * EntryWeight(clients, entries[k])
  }

  /** One cell of the result, from the weighted sum and the divisor. */
  function Mean(sum: int, total: nat): Elem {
    if total > 1 then (sum % Q * ModInv(total)) % Q else sum % Q
  }

  ghost predicate Fits(clients: seq<Client>, entries: seq<Entry>, numChunks: nat, chunkSize: nat) {
    forall e, s :: e in entries && EntryWeight(clients, e) != 0 && s in e.chunks && s < numChunks ==> |e.chunks[s]| <= chunkSize
  }

  method TotalWeight(clients: seq<Client>, entries: seq<Entry>) returns (total: nat)
    ensures total == TotalSamples(clients, Keys(entries))
  {
    var keys := Keys(entries);
    total := 0;
    var i := 0;
    while i < |clients|
      invariant 0 <= i <= |clients|
      invariant total == Samples(clients[..i], keys)
    {
      var c := clients[i];
      assert clients[..i + 1][..i] == clients[..i];
      if c.completed && c.sampleCount > 0 && c.id in keys {
        total := total + c.sampleCount;
      }
      i := i + 1;
    }
    assert clients[..i] == clients;
    if total == 0 {
      i := 0;
      while i < |clients|
        invariant 0 <= i <= |clients|
        invariant total == Completed(clients[..i], keys)
      {
        var c := clients[i];
        assert clients[..i + 1][..i] == clients[..i];
        if c.completed && c.id in keys {
          total := total + 1;
        }
        i := i + 1;
      }
      assert clients[..i] == clients;
    }
  }

  ghost predicate Shape(grid: seq<seq<int>>, numChunks: nat, chunkSize: nat) {
    |grid| == numChunks && forall s :: 0 <= s < numChunks ==> |grid[s]| == chunkSize
  }

  /** Every cell of the accumulator is the reduced weighted sum of the entries done. */
  ghost predicate Accumulated(grid: seq<seq<int>>, clients: seq<Client>, done: seq<Entry>, numChunks: nat,
                      chunkSize: nat)
    requires Shape(grid, numChunks, chunkSize)
  {
    forall s, j :: 0 <= s < numChunks && 0 <= j < chunkSize ==> grid[s][j] == WeightedSum(clients, done, s, j) % Q
  }

  /** The innermost loop: add one chunk of one client into its row. */
  method AddChunk(row: seq<int>, chunk: seq<int>, weight: int) returns (r: Result<seq<int>, AverageError>)
    ensures |chunk| > |row| ==> r == Err(IndexError)
    ensures |chunk| <= |row| ==> r.Ok? && |r.value| == |row| && forall j :: 0 <= j < |row| ==>
      r.value[j] == if j < |chunk| then (row[j] + chunk[j] * weight) % Q else row[j]
  {
    var out := row;
    var j := 0;
    while j < |chunk|
      invariant 0 <= j <= |chunk| && |out| == |row| && (j == 0 || j <= |row|)
      invariant forall k :: 0 <= k < |row| ==> out[k] == if k < j then (row[k] + chunk[k] * weight) % Q else row[k]
    {
      if j >= |out| {
        return Err(IndexError);
      }
      out := out[j := (out[j] + chunk[j] * weight) % Q];
      j := j + 1;
    }
    r := Ok(out);
  }

  lemma WeightedStep(clients: seq<Client>, entries: seq<Entry>, e: Entry, s: nat, j: nat)
    ensures WeightedSum(clients, entries + [e], s, j)
         == WeightedSum(clients, entries, s, j) + ChunkValue(e.chunks, s, j) * EntryWeight(clients, e)
  {
    assert (entries + [e])[..|entries|] == entries;
  }

  /** The middle loop: add every chunk of one completed client. */
  method AddEntry(grid: seq<seq<int>>, ghost clients: seq<Client>, ghost done: seq<Entry>, e: Entry, weight: int,
                  numChunks: nat, chunkSize: nat) returns (r: Result<seq<seq<int>>, AverageError>)
    requires Shape(grid, numChunks, chunkSize) && Accumulated(grid, clients, done, numChunks, chunkSize)
    requires weight == EntryWeight(clients, e)
    ensures r.Err? ==> r.error == IndexError && exists s :: s in e.chunks && s < numChunks && |e.chunks[s]| > chunkSize
    ensures r.Ok? ==> forall s :: s in e.chunks && s < numChunks ==> |e.chunks[s]| <= chunkSize
    ensures r.Ok? ==> Shape(r.value, numChunks, chunkSize) && Accumulated(r.value, clients, done + [e], numChunks, chunkSize)
  {
    var out := grid;
    var s := 0;
    while s < numChunks
      invariant 0 <= s <= numChunks && Shape(out, numChunks, chunkSize)
      invariant forall k :: k in e.chunks && k < s ==> |e.chunks[k]| <= chunkSize
      invariant forall k, j :: 0 <= k < s && 0 <= j < chunkSize ==> out[k][j] == WeightedSum(clients, done + [e], k, j) % Q
      invariant forall k :: s <= k < numChunks ==> out[k] == grid[k]
    {
      if s in e.chunks {
        var row := AddChunk(out[s], e.chunks[s], weight);
        if row.Err? {
          return Err(IndexError);
        }
        RowAdded(grid[s], row.value, clients, done, e, weight, s, chunkSize);
        out := out[s := row.value];
      } else {
        forall j | 0 <= j < chunkSize
          ensures grid[s][j] == WeightedSum(clients, done + [e], s, j) % Q
        {
          WeightedStep(clients, done, e, s, j);
        }
      }
      s := s + 1;
    }
    r := Ok(out);
  }

  lemma RowAdded(row: seq<int>, out: seq<int>, clients: seq<Client>, done: seq<Entry>, e: Entry, weight: int,
                      s: nat, chunkSize: nat)
    requires |row| == |out| == chunkSize && s in e.chunks && weight == EntryWeight(clients, e)
    requires forall j :: 0 <= j < chunkSize ==> row[j] == WeightedSum(clients, done, s, j) % Q
    requires forall j :: 0 <= j < chunkSize ==>
      out[j] == if j < |e.chunks[s]| then (row[j] + e.chunks[s][j] * weight) % Q else row[j]
    ensures forall j :: 0 <= j < chunkSize ==> out[j] == WeightedSum(clients, done + [e], s, j) % Q
  {
    forall j | 0 <= j < chunkSize
      ensures out[j] == WeightedSum(clients, done + [e], s, j) % Q
    {
      WeightedStep(clients, done, e, s, j);
      if j < |e.chunks[s]| {
        AddReduced(row[j], WeightedSum(clients, done, s, j), e.chunks[s][j] * weight);
      }
    }
  }

  /** The outer loop: entries of unknown or unfinished clients are passed over. */
  method Accumulate(clients: seq<Client>, entries: seq<Entry>, numChunks: nat, chunkSize: nat)
    returns (r: Result<seq<seq<int>>, AverageError>)
    ensures r.Ok? <==> Fits(clients, entries, numChunks, chunkSize)
    ensures r.Err? ==> r.error == IndexError
    ensures r.Ok? ==> Shape(r.value, numChunks, chunkSize) && Accumulated(r.value, clients, entries, numChunks, chunkSize)
  {
    var grid: seq<seq<int>> := seq(numChunks, _ => seq(chunkSize, _ => 0));
    var i := 0;
    while i < |entries|
      invariant 0 <= i <= |entries|
      invariant Shape(grid, numChunks, chunkSize)
      invariant Accumulated(grid, clients, entries[..i], numChunks, chunkSize)
      invariant Fits(clients, entries[..i], numChunks, chunkSize)
    {
      hide WeightedSum;
      var e := entries[i];
      assert entries[..i + 1] == entries[..i] + [e];
      var found := Find(clients, e.id);
      if found.Absent? || !found.client.completed {
        SkippedEntry(grid, clients, entries[..i], e, numChunks, chunkSize);
      } else {
        var added := AddEntry(grid, clients, entries[..i], e, Weight(found.client), numChunks, chunkSize);
        if added.Err? {
          assert e in entries;
          return Err(IndexError);
        }
        grid := added.value;
      }
      i := i + 1;
    }
    assert entries[..i] == entries;
    r := Ok(grid);
  }

  lemma SkippedEntry(grid: seq<seq<int>>, clients: seq<Client>, done: seq<Entry>, e: Entry, numChunks: nat,
                      chunkSize: nat)
    requires Shape(grid, numChunks, chunkSize) && Accumulated(grid, clients, done, numChunks, chunkSize)
    requires EntryWeight(clients, e) == 0
    ensures Accumulated(grid, clients, done + [e], numChunks, chunkSize)
  {
    forall s, j | 0 <= s < numChunks && 0 <= j < chunkSize
      ensures grid[s][j] == WeightedSum(clients, done + [e], s, j) % Q
    {
      WeightedStep(clients, done, e, s, j);
    }
  }

  /** The final scaling by the inverse of the divisor. */
  method ScaleGrid(grid: seq<seq<int>>, total: nat, numChunks: nat, chunkSize: nat) returns (out: seq<seq<int>>)
    requires Shape(grid, numChunks, chunkSize) && total > 1
    ensures Shape(out, numChunks, chunkSize)
    ensures forall s, j :: 0 <= s < numChunks && 0 <= j < chunkSize ==> out[s][j] == (grid[s][j] * ModInv(total)) % Q
  {
    var inv := ModInv(total);
    out := [];
    var s := 0;
    while s < numChunks
      invariant 0 <= s == |out| <= numChunks
      invariant forall k :: 0 <= k < s ==> |out[k]| == chunkSize
      invariant forall k, j :: 0 <= k < s && 0 <= j < chunkSize ==> out[k][j] == (grid[k][j] * inv) % Q
    {
      var row: seq<int> := [];
      var j := 0;
      while j < chunkSize
        invariant 0 <= j == |row| <= chunkSize
        invariant forall m :: 0 <= m < j ==> row[m] == (grid[s][m] * inv) % Q
      {
        row := row + [(grid[s][j] * inv) % Q];
        j := j + 1;
      }
      out := out + [row];
      s := s + 1;
    }
  }

  method ComputeFedavg(clients: seq<Client>, modelSize: nat, chunkSize: nat, entries: seq<Entry>)
    returns (r: Result<seq<seq<int>>, AverageError>)
    ensures chunkSize == 0 ==> r == Err(ZeroDivision)
    ensures chunkSize > 0 ==> (r.Ok? <==> Fits(clients, entries, modelSize / chunkSize, chunkSize))
    ensures chunkSize > 0 && r.Err? ==> r.error == IndexError
    ensures chunkSize > 0 && r.Ok? ==>
      && Shape(r.value, modelSize / chunkSize, chunkSize)
      && forall s, j :: 0 <= s < modelSize / chunkSize && 0 <= j < chunkSize ==>
        r.value[s][j] == Mean(WeightedSum(clients, entries, s, j), TotalSamples(clients, Keys(entries)))
  {
    hide WeightedSum, ModInv, TotalSamples;
    var total := TotalWeight(clients, entries);
    if chunkSize == 0 {
      return Err(ZeroDivision);
    }
    var numChunks := modelSize / chunkSize;
    r := Accumulate(clients, entries, numChunks, chunkSize);
    if r.Ok? && total > 1 {
      var scaled := ScaleGrid(r.value, total, numChunks, chunkSize);
      r := Ok(scaled);
    }
  }

  // ----- the sums, term by term ---------------------------------------------------------------

  /** What one more contribution adds to a cell: its value there, times the sample count of the
      client it belongs to, at least one, if that client completed. */
  lemma ContributionAdds(clients: seq<Client>, entries: seq<Entry>, e: Entry, s: nat, j: nat, weight: int)
    requires forall c :: c in clients && c.id == e.id ==>
      weight == if !c.completed then 0 else if c.sampleCount > 1 then c.sampleCount else 1
    requires (forall c :: c in clients ==> c.id != e.id) ==> weight == 0
    ensures WeightedSum(clients, [], s, j) == 0
    ensures WeightedSum(clients, entries + [e], s, j) == WeightedSum(clients, entries, s, j)
      + (if s in e.chunks && j < |e.chunks[s]| then e.chunks[s][j] else 0) * weight
  {
    WeightedStep(clients, entries, e, s, j);
    assert EntryWeight(clients, e) == weight;
  }

  /** The divisor, client by client: the positive sample counts of the completed contributors;
      if there are none, the number of completed contributors. */
  lemma DivisorAdds(clients: seq<Client>, c: Client, keys: set<int>)
    ensures Samples([], keys) == 0 && Completed([], keys) == 0
    ensures Samples(clients + [c], keys) == Samples(clients, keys)
      + if c.completed && c.id in keys && c.sampleCount > 0 then c.sampleCount else 0
    ensures Completed(clients + [c], keys) == Completed(clients, keys) + if c.completed && c.id in keys then 1 else 0
    ensures TotalSamples(clients, keys) == 0 <==> forall d :: d in clients && d.id in keys ==> !d.completed
    ensures TotalSamples(clients, keys) ==
      if exists d :: d in clients && d.id in keys && d.completed && d.sampleCount > 0 then Samples(clients, keys)
      else Completed(clients, keys)
  {
    assert (clients + [c])[..|clients|] == clients;
    SamplesPositive(clients, keys);
  }

  lemma {:induction false} SamplesPositive(clients: seq<Client>, keys: set<int>)
    ensures Samples(clients, keys) > 0 <==> exists d :: d in clients && d.id in keys && d.completed && d.sampleCount > 0
    ensures Completed(clients, keys) > 0 <==> exists d :: d in clients && d.id in keys && d.completed
  {
    if clients != [] {
      var k := |clients| - 1;
      SamplesPositive(clients[..k], keys);
      assert clients == clients[..k] + [clients[k]];
    }
  }

  /** If no contributor completed, every cell of the result is zero. */
  lemma NobodyCompleted(clients: seq<Client>, entries: seq<Entry>, s: nat, j: nat)
    requires forall c, e :: c in clients && e in entries && c.id == e.id ==> !c.completed
    ensures TotalSamples(clients, Keys(entries)) == 0
    ensures Mean(WeightedSum(clients, entries, s, j), TotalSamples(clients, Keys(entries))) == 0
  {
    SamplesPositive(clients, Keys(entries));
    NothingWeighs(clients, entries, s, j);
  }

  lemma {:induction false} NothingWeighs(clients: seq<Client>, entries: seq<Entry>, s: nat, j: nat)
    requires forall c, e :: c in clients && e in entries && c.id == e.id ==> !c.completed
    ensures WeightedSum(clients, entries, s, j) == 0
  {
    if entries != [] {
      var k := |entries| - 1;
      NothingWeighs(clients, entries[..k], s, j);
      assert entries[k] in entries;
    }
  }

  // ----- what the average means ---------------------------------------------------------

  /** Modulo 3329 the result is the quotient of the weighted sum by the divisor, whenever the
      divisor has an inverse; a divisor that 3329 divides wipes the result out. */
  lemma MeanDivides(sum: int, total: nat)
    requires total > 0
    ensures !Cong(total, 0) ==> Cong(Mean(sum, total) * total, sum)
    ensures Cong(total, 0) ==> Mean(sum, total) == 0
  {
    hide ModInv, Cong;
    CongMod(sum);
    if total > 1 {
      ModInvCorrect(total);
      ScaledMean(sum, sum % Q, total, ModInv(total));
    } else {
      UnitTotal(sum, total);
    }
  }

  lemma UnitTotal(sum: int, total: nat)
    requires total == 1
    ensures !Cong(total, 0) && Cong(Mean(sum, total) * total, sum)
  {}

  lemma ScaledMean(sum: int, s: int, total: int, inv: int)
    requires Cong(s, sum)
    ensures Cong(inv * total, 1) ==> Cong(((s * inv) % Q) * total, sum)
    ensures inv == 0 ==> (s * inv) % Q == 0
  {
    hide Cong;
    var m := (s * inv) % Q;
    if Cong(inv * total, 1) {
      CongMod(s * inv);
      CongRefl(total);
      CongMul(m, s * inv, total, total);
      CongMul(s, sum, inv * total, 1);
      assert s * (inv * total) == s * inv * total;
      CongTrans(m * total, s * inv * total, sum);
    }
  }

  /** The order of the dictionary of contributions changes no sum. */
  lemma {:induction false} EntryOrderIrrelevant(clients: seq<Client>, entries: seq<Entry>,
                      entries': seq<Entry>, s: nat, j: nat)
    requires multiset(entries) == multiset(entries')
    ensures WeightedSum(clients, entries, s, j) == WeightedSum(clients, entries', s, j)
    decreases |entries|
  {
    if entries == [] {
      assert |entries'| == |multiset(entries')| == 0;
    } else {
      hide ChunkValue, EntryWeight;
      var i := LastMatched(entries, entries');
      SumWithout(clients, entries', i, s, j);
      EntryOrderIrrelevant(clients, entries[..|entries| - 1], Without(entries', i), s, j);
    }
  }

  lemma {:induction false} SumWithout(clients: seq<Client>, entries: seq<Entry>, i: nat, s: nat, j: nat)
    requires i < |entries|
    ensures WeightedSum(clients, entries, s, j)
         == WeightedSum(clients, Without(entries, i), s, j)
            + ChunkValue(entries[i].chunks, s, j) * EntryWeight(clients, entries[i])
  {
    hide ChunkValue, EntryWeight;
    var k := |entries| - 1;
    if i < k {
      SumWithout(clients, entries[..k], i, s, j);
      var rest := Without(entries, i);
      assert rest[..k - 1] == Without(entries[..k], i) && rest[k - 1] == entries[k];
    } else {
      assert Without(entries, i) == entries[..k];
    }
  }

  // ----- total weight against divisor ----------------------------------------------------

  function WeightOf(clients: seq<Client>, entries: seq<Entry>): int {
    if entries == [] then 0
    else
      var k := |entries| - 1;
      WeightOf(clients, entries[..k]) + EntryWeight(clients, entries[k])
  }

  /** The same total, counted client by client. */
  function KeyedWeight(clients: seq<Client>, keys: set<int>): nat {
    if clients == [] then 0
    else
      var k := |clients| - 1;
      var c := clients[k];
      KeyedWeight(clients[..k], keys) + if c.completed && c.id in keys then Weight(c) else 0
  }

  lemma {:induction false} KeyedExtend(clients: seq<Client>, keys: set<int>, e: Entry)
    requires DistinctClients(clients) && e.id !in keys
    ensures KeyedWeight(clients, keys + {e.id}) == KeyedWeight(clients, keys) + EntryWeight(clients, e)
  {
    if clients != [] {
      var k := |clients| - 1;
      KeyedExtend(clients[..k], keys, e);
    }
  }

  lemma {:induction false} WeightTwoWays(clients: seq<Client>, entries: seq<Entry>)
    requires DistinctClients(clients) && DistinctEntries(entries)
    ensures WeightOf(clients, entries) == KeyedWeight(clients, Keys(entries))
  {
    if entries == [] {
      assert Keys(entries) == {};
      NoKeys(clients);
    } else {
      var k := |entries| - 1;
      WeightTwoWays(clients, entries[..k]);
      assert entries == entries[..k] + [entries[k]];
      assert Keys(entries) == Keys(entries[..k]) + {entries[k].id};
      assert entries[k].id !in Keys(entries[..k]);
      KeyedExtend(clients, Keys(entries[..k]), entries[k]);
    }
  }

  lemma {:induction false} NoKeys(clients: seq<Client>)
    ensures KeyedWeight(clients, {}) == 0
  {
    if clients != [] {
      NoKeys(clients[..|clients| - 1]);
    }
  }

  lemma {:induction false} WeightSplits(clients: seq<Client>, keys: set<int>)
    ensures KeyedWeight(clients, keys) == Samples(clients, keys) + Unsampled(clients, keys)
    ensures Samples(clients, keys) == 0 ==> Completed(clients, keys) == Unsampled(clients, keys)
  {
    if clients != [] {
      WeightSplits(clients[..|clients| - 1], keys);
    }
  }

  /** The weights exceed the divisor by the number of completed clients without samples,
      unless no client has any. */
  lemma WeightAgainstTotal(clients: seq<Client>, entries: seq<Entry>)
    requires DistinctClients(clients) && DistinctEntries(entries)
    ensures var keys := Keys(entries);
      WeightOf(clients, entries) == TotalSamples(clients, keys) +
        if Samples(clients, keys) == 0 then 0 else Unsampled(clients, keys)
  {
    WeightTwoWays(clients, entries);
    WeightSplits(clients, Keys(entries));
  }

  // ----- consensus -------------------------------------------------------------------------

  /** Every contributing client sent the value v for this cell. */
  ghost predicate Unanimous(clients: seq<Client>, entries: seq<Entry>, s: nat, j: nat, v: int) {
    forall i :: 0 <= i < |entries| && EntryWeight(clients, entries[i]) != 0 ==> ChunkValue(entries[i].chunks, s, j) == v
  }

  lemma {:induction false} UnanimousSum(clients: seq<Client>, entries: seq<Entry>, s: nat, j: nat, v: int)
    requires Unanimous(clients, entries, s, j, v)
    ensures WeightedSum(clients, entries, s, j) == v * WeightOf(clients, entries)
  {
    if entries != [] {
      var k := |entries| - 1;
      UnanimousSum(clients, entries[..k], s, j, v);
      UnanimousStep(v, WeightOf(clients, entries[..k]), ChunkValue(entries[k].chunks, s, j), EntryWeight(clients, entries[k]));
    }
  }

  lemma UnanimousStep(v: int, w: int, x: int, e: int)
    requires e == 0 || x == v
    ensures v * w + x * e == v * (w + e)
  {}

  /** The divisor turns the total weight into one: the average preserves agreement. */
  ghost predicate Preserves(weight: int, total: nat) {
    !Cong(total, 0) && Cong(weight, total)
  }

  lemma MeanOfMultiple(v: Elem, weight: int, total: nat)
    requires total > 0 && Preserves(weight, total)
    ensures Mean(v * weight, total) == v
  {
    hide Mean, Cong;
    MeanDivides(v * weight, total);
    var m := Mean(v * weight, total);
    CongRefl(v);
    CongMul(v, v, weight, total);
    CongTrans(m * total, v * weight, v * total);
    assert m * total == total * m && v * total == total * v;
    Cancel(m, v, total);
    SameResidue(m, v);
  }

  lemma MeanOfWeight(weight: int, total: nat)
    requires total > 0 && Mean(weight, total) == 1
    ensures Preserves(weight, total)
  {
    hide Mean, Cong;
    MeanDivides(weight, total);
    CongTransBack(total, weight);
  }

  lemma CongTransBack(a: int, b: int)
    ensures Cong(1 * a, b) ==> Cong(b, a)
  {}

  /** 3329 does not divide the divisor, and divides the number of completed clients that the
      divisor leaves out. */
  ghost predicate Balanced(clients: seq<Client>, keys: set<int>) {
    && !Cong(TotalSamples(clients, keys), 0)
    && (Samples(clients, keys) == 0 || Cong(Unsampled(clients, keys), 0))
  }

  /** The same clients, with anything in their chunks. */
  ghost predicate SameIds(entries: seq<Entry>, entries': seq<Entry>) {
    |entries'| == |entries| && forall i :: 0 <= i < |entries| ==> entries'[i].id == entries[i].id
  }

  lemma {:induction false} SameIdsWeight(clients: seq<Client>, entries: seq<Entry>, entries': seq<Entry>)
    requires SameIds(entries, entries')
    ensures WeightOf(clients, entries') == WeightOf(clients, entries)
  {
    if entries != [] {
      hide Find, Weight;
      var k := |entries| - 1;
      SameIdsWeight(clients, entries[..k], entries'[..k]);
    }
  }

  lemma SameIdsKeys(entries: seq<Entry>, entries': seq<Entry>)
    requires SameIds(entries, entries')
    ensures Keys(entries') == Keys(entries)
  {
    assert forall i :: 0 <= i < |entries| ==> entries[i] in entries && entries'[i] in entries';
  }

  /** Whatever these clients send: where all that contribute agree, the average agrees too. */
  ghost predicate KeepsAgreement(clients: seq<Client>, entries: seq<Entry>, s: nat, j: nat) {
    forall entries', v :: SameIds(entries, entries') && 0 <= v < Q && Unanimous(clients, entries', s, j, v) ==>
      Mean(WeightedSum(clients, entries', s, j), TotalSamples(clients, Keys(entries'))) == v
  }

  /** Every client sends ones. */
  function Ones(entries: seq<Entry>, s: nat, j: nat): (entries': seq<Entry>)
    ensures SameIds(entries, entries')
    ensures forall i :: 0 <= i < |entries| ==> ChunkValue(entries'[i].chunks, s, j) == 1
  {
    seq(|entries|, i requires 0 <= i < |entries| => Entry(entries[i].id, map[s := seq(j + 1, _ => 1)]))
  }

  /** When all contributing clients send the same value for a cell, the average is that value,
      whichever clients these are and whatever the value, exactly when the round is balanced: in
      particular when every completed client has samples, or none has. In an unbalanced round
      the average already goes wrong when all send ones. */
  lemma Consensus(clients: seq<Client>, entries: seq<Entry>, s: nat, j: nat)
    requires DistinctClients(clients) && DistinctEntries(entries)
    requires TotalSamples(clients, Keys(entries)) > 0
    ensures KeepsAgreement(clients, entries, s, j) <==> Balanced(clients, Keys(entries))
    ensures !Balanced(clients, Keys(entries)) ==> var entries' := Ones(entries, s, j);
      && Unanimous(clients, entries', s, j, 1)
      && Mean(WeightedSum(clients, entries', s, j), TotalSamples(clients, Keys(entries))) != 1
  {
    hide Mean, WeightedSum, WeightOf, Unanimous, DistinctClients, DistinctEntries, TotalSamples, SameIds, Preserves,
      Keys, Ones;
    var total := TotalSamples(clients, Keys(entries));
    assert Preserves(WeightOf(clients, entries), total) <==> Balanced(clients, Keys(entries)) by {
      BalancedWeight(clients, entries);
    }
    hide Balanced;
    if Balanced(clients, Keys(entries)) {
      forall entries', v | SameIds(entries, entries') && 0 <= v < Q && Unanimous(clients, entries', s, j, v)
        ensures Mean(WeightedSum(clients, entries', s, j), TotalSamples(clients, Keys(entries'))) == v
      {
        SameIdsWeight(clients, entries, entries');
        SameIdsKeys(entries, entries');
        UnanimousSum(clients, entries', s, j, v);
        MeanOfMultiple(v, WeightOf(clients, entries), total);
      }
    } else {
      var entries' := Ones(entries, s, j);
      SameIdsWeight(clients, entries, entries');
      SameIdsKeys(entries, entries');
      OnesAgree(clients, entries, s, j);
      UnanimousSum(clients, entries', s, j, 1);
      if Mean(WeightedSum(clients, entries', s, j), total) == 1 {
        MeanOfWeight(WeightOf(clients, entries), total);
      }
    }
  }

  lemma OnesAgree(clients: seq<Client>, entries: seq<Entry>, s: nat, j: nat)
    ensures Unanimous(clients, Ones(entries, s, j), s, j, 1)
  {}

  lemma BalancedWeight(clients: seq<Client>, entries: seq<Entry>)
    requires DistinctClients(clients) && DistinctEntries(entries)
    requires TotalSamples(clients, Keys(entries)) > 0
    ensures Preserves(WeightOf(clients, entries), TotalSamples(clients, Keys(entries)))
       <==> Balanced(clients, Keys(entries))
  {
    hide WeightOf, DistinctClients, DistinctEntries, TotalSamples, Keys;
    WeightAgainstTotal(clients, entries);
  }

  /** Two completed clients, one without samples, both send 1: the average comes out as 2. */
  lemma WrongAverage()
    ensures var clients := [Client(1, true, 1), Client(2, true, 0)];
      var entries := [Entry(1, map[0 := [1]]), Entry(2, map[0 := [1]])];
      && Unanimous(clients, entries, 0, 0, 1)
      && Mean(WeightedSum(clients, entries, 0, 0), TotalSamples(clients, Keys(entries))) == 2
  {
    var clients := [Client(1, true, 1), Client(2, true, 0)];
    var entries := [Entry(1, map[0 := [1]]), Entry(2, map[0 := [1]])];
    assert 1 in Keys(entries) by { assert entries[0] in entries; }
    assert clients[..1] == [clients[0]] && clients[..1][..0] == [];
    assert entries[..1] == [entries[0]] && entries[..1][..0] == [];
    assert EntryWeight(clients, entries[0]) == 1 && EntryWeight(clients, entries[1]) == 1;
    assert WeightedSum(clients, entries[..1], 0, 0) == 1;
    assert Samples(clients[..1], Keys(entries)) == 1;
    assert TotalSamples(clients, Keys(entries)) == 1;
  }
}
