/** The train/validation split of a transcript list: lines are taken in
    blocks of ten; from each complete block two lines are drawn (with
    replacement) for validation and the block's other lines go to
    training. */
module TrainValid {
  import opened PyStr

  /** A position inside a block of ten. */
  type Slot = i: nat | i < 10

  /** The two positions `random.choices(block, k=2)` draws from a block. */
  datatype Pick = Pick(first: Slot, second: Slot)

  /** Lines lo .. hi-1, each stripped, as the reading loop stores them. */
  function StripRange(lines: seq<string>, lo: nat, hi: nat): (r: seq<string>)
    requires lo <= hi <= |lines|
    ensures |r| == hi - lo
    decreases hi
  {
    if hi == lo then [] else StripRange(lines, lo, hi - 1) + [Strip(lines[hi - 1])]
  }

  /** Every line of the input, stripped. */
  function StripAll(lines: seq<string>): (r: seq<string>)
    ensures |r| == |lines|
  {
    StripRange(lines, 0, |lines|)
  }

  /** Entry t of the range is line lo + t, stripped. */
  lemma {:induction false} StripRangeAt(lines: seq<string>, lo: nat, hi: nat)
    requires lo <= hi <= |lines|
    ensures forall t :: 0 <= t < hi - lo ==> StripRange(lines, lo, hi)[t] == Strip(lines[lo + t])
    decreases hi
  {
    if hi > lo {
      StripRangeAt(lines, lo, hi - 1);
    }
  }

  /** The buffer for lines lo .. hi-1 is that slice of the stripped input. */
  lemma StripRangeSlice(lines: seq<string>, lo: nat, hi: nat)
    requires lo <= hi <= |lines|
    ensures StripAll(lines)[lo .. hi] == StripRange(lines, lo, hi)
  {
    StripRangeAt(lines, 0, |lines|);
    StripRangeAt(lines, lo, hi);
  }

  /** Block j: entries 10j .. 10j+9 of the stripped input. */
  function Block(stripped: seq<string>, j: nat): (r: seq<string>)
    requires 10 * j + 10 <= |stripped|
    ensures |r| == 10
  {
    stripped[10 * j .. 10 * j + 10]
  }

  /** The two validation entries drawn from a block. */
  function Chosen(block: seq<string>, p: Pick): (v: seq<string>)
    requires p.first < |block| && p.second < |block|
    ensures |v| == 2
  {
    [block[p.first], block[p.second]]
  }

  /** `list(filter(lambda x: x not in v, xs))`. */
  function Without(xs: seq<string>, v: seq<string>): (r: seq<string>)
    ensures |r| <= |xs|
  {
    if xs == [] then []
    else (if xs[0] in v then [] else [xs[0]]) + Without(xs[1..], v)
  }

  /** The filter keeps every line outside v as often as it occurs, and no
      line of v. */
  lemma {:induction false} WithoutCounts(xs: seq<string>, v: seq<string>)
    ensures forall x :: multiset(Without(xs, v))[x] == if x in v then 0 else multiset(xs)[x]
  {
    if xs != [] {
      WithoutCounts(xs[1..], v);
      assert xs == [xs[0]] + xs[1..];
    }
  }

  /** The filter works line by line, in order: it distributes over
      concatenation ... */
  lemma {:induction false} WithoutAppend(a: seq<string>, b: seq<string>, v: seq<string>)
    ensures Without(a + b, v) == Without(a, v) + Without(b, v)
  {
    if a != [] {
      assert (a + b)[1..] == a[1..] + b;
      WithoutAppend(a[1..], b, v);
    } else {
      assert a + b == b;
    }
  }

  /** ... and keeps a single line exactly when it was not drawn. */
  lemma WithoutSingle(x: string, v: seq<string>)
    ensures Without([x], v) == if x in v then [] else [x]
  {
    assert [x][1..] == [];
  }

  /** The filter keeps exactly the lines outside v. */
  lemma {:induction false} WithoutMembers(xs: seq<string>, v: seq<string>)
    ensures forall x :: x in Without(xs, v) <==> x in xs && x !in v
  {
    if xs != [] {
      WithoutMembers(xs[1..], v);
      assert xs == [xs[0]] + xs[1..];
    }
  }

  /** The training list after the first b complete blocks of the stripped
      input: each block's lines other than its two draws, block by block. */
  function Train(stripped: seq<string>, picks: seq<Pick>, b: nat): seq<string>
    requires 10 * b <= |stripped| && b <= |picks|
  {
    if b == 0 then []
    else
      var block := Block(stripped, b - 1);
      Train(stripped, picks, b - 1) + Without(block, Chosen(block, picks[b - 1]))
  }

  /** The validation list after the first b complete blocks: each block's two
      draws, block by block. */
  function Valid(stripped: seq<string>, picks: seq<Pick>, b: nat): seq<string>
    requires 10 * b <= |stripped| && b <= |picks|
  {
    if b == 0 then []
    else Valid(stripped, picks, b - 1) + Chosen(Block(stripped, b - 1), picks[b - 1])
  }

  /** `get_train_valid` over the lines `readline` returns; `picks[j]` is the
      draw made when the j-th block completes. */
  method GetTrainValid(lines: seq<string>, picks: seq<Pick>) returns (train: seq<string>, valid: seq<string>)
    requires |picks| >= |lines| / 10
    ensures train == Train(StripAll(lines), picks, |lines| / 10)
    ensures valid == Valid(StripAll(lines), picks, |lines| / 10)
  {
    assert |lines| < 10 * |picks| + 10;
    var acc: seq<string> := [];
    train, valid := [], [];
    var drawn := 0;
    for i := 0 to |lines|
      invariant Read(lines, picks, i, drawn, acc, train, valid)
    {
      ReadLine(lines, picks, i, drawn, acc, train, valid);
      var line := Strip(lines[i]);
      acc := acc + [line];
      if |acc| == 10 {
        var v := [acc[picks[drawn].first], acc[picks[drawn].second]];
        var t := Without(acc, v);
        train := train + t;
        valid := valid + v;
        acc := [];
        drawn := drawn + 1;
      }
    }
    ReadAll(lines, picks, drawn, acc, train, valid);
  }

  /** The loop state after i lines: the first `drawn` blocks are split into
      the two lists and the buffer holds the stripped lines read since. */
  ghost predicate Read(lines: seq<string>, picks: seq<Pick>, i: nat, drawn: nat, acc: seq<string>,
                       train: seq<string>, valid: seq<string>)
  {
    && i <= |lines| && i == 10 * drawn + |acc| && |acc| < 10 && drawn <= |picks|
    && acc == StripRange(lines, 10 * drawn, i)
    && train == Train(StripAll(lines), picks, drawn)
    && valid == Valid(StripAll(lines), picks, drawn)
  }

  /** Reading one more line either only grows the buffer or, at the tenth
      line, completes the next block, which has its draw: taking the draw
      extends both lists with that block's share and empties the buffer. */
  lemma ReadLine(lines: seq<string>, picks: seq<Pick>, i: nat, drawn: nat, acc: seq<string>,
                 train: seq<string>, valid: seq<string>)
    requires Read(lines, picks, i, drawn, acc, train, valid) && i < |lines|
    requires |lines| < 10 * |picks| + 10
    ensures |acc| < 9 ==> Read(lines, picks, i + 1, drawn, acc + [Strip(lines[i])], train, valid)
    ensures |acc| == 9 ==> drawn < |picks|
    ensures |acc| == 9 ==>
              var full := acc + [Strip(lines[i])];
              var v := [full[picks[drawn].first], full[picks[drawn].second]];
              Read(lines, picks, i + 1, drawn + 1, [], train + Without(full, v), valid + v)
  {
    var full := acc + [Strip(lines[i])];
    assert full == StripRange(lines, 10 * drawn, i + 1);
    if |acc| == 9 {
      StripRangeSlice(lines, 10 * drawn, i + 1);
      assert full == Block(StripAll(lines), drawn);
    }
  }

  /** At the end of the input the lists hold every complete block's share;
      a partial last block is left in the buffer. */
  lemma ReadAll(lines: seq<string>, picks: seq<Pick>, drawn: nat, acc: seq<string>,
                train: seq<string>, valid: seq<string>)
    requires Read(lines, picks, |lines|, drawn, acc, train, valid)
    ensures train == Train(StripAll(lines), picks, |lines| / 10)
    ensures valid == Valid(StripAll(lines), picks, |lines| / 10)
  {
    BlockCount(|lines|, drawn, |acc|);
  }

  /** How many complete blocks of ten n lines hold. */
  lemma BlockCount(n: nat, q: nat, r: nat)
    requires n == 10 * q + r
    ensures r < 10 ==> n / 10 == q
    ensures q <= n / 10
  {
  }

  /** Two validation entries per complete block. */
  lemma {:induction false} ValidCount(stripped: seq<string>, picks: seq<Pick>, b: nat)
    requires 10 * b <= |stripped| && b <= |picks|
    ensures |Valid(stripped, picks, b)| == 2 * b
  {
    if b > 0 {
      ValidCount(stripped, picks, b - 1);
    }
  }

  /** Validation entries 2j and 2j+1 are the two draws from block j. */
  lemma {:induction false} ValidAt(stripped: seq<string>, picks: seq<Pick>, b: nat, j: nat)
    requires 10 * b <= |stripped| && b <= |picks| && j < b
    ensures |Valid(stripped, picks, b)| == 2 * b
    ensures Valid(stripped, picks, b)[2 * j] == Block(stripped, j)[picks[j].first]
    ensures Valid(stripped, picks, b)[2 * j + 1] == Block(stripped, j)[picks[j].second]
  {
    ValidCount(stripped, picks, b);
    ValidCount(stripped, picks, b - 1);
    var prev := Valid(stripped, picks, b - 1);
    var v := Chosen(Block(stripped, b - 1), picks[b - 1]);
    var cur := Valid(stripped, picks, b);
    if j < b - 1 {
      ValidAt(stripped, picks, b - 1, j);
      assert cur[2 * j] == prev[2 * j] && cur[2 * j + 1] == prev[2 * j + 1];
    } else {
      assert cur[2 * j] == v[0] && cur[2 * j + 1] == v[1];
    }
  }

  /** The same for every block at once. */
  lemma ValidFromOwnBlock(stripped: seq<string>, picks: seq<Pick>, b: nat)
    requires 10 * b <= |stripped| && b <= |picks|
    ensures |Valid(stripped, picks, b)| == 2 * b
    ensures forall j :: 0 <= j < b ==>
      && Valid(stripped, picks, b)[2 * j] == Block(stripped, j)[picks[j].first]
      && Valid(stripped, picks, b)[2 * j + 1] == Block(stripped, j)[picks[j].second]
  {
    ValidCount(stripped, picks, b);
    forall j | 0 <= j < b
      ensures Valid(stripped, picks, b)[2 * j] == Block(stripped, j)[picks[j].first]
      ensures Valid(stripped, picks, b)[2 * j + 1] == Block(stripped, j)[picks[j].second]
    {
      ValidAt(stripped, picks, b, j);
    }
  }

  /** Every training entry comes from some block and equals neither line
      drawn from that block. */
  lemma {:induction false} TrainFromOwnBlock(stripped: seq<string>, picks: seq<Pick>, b: nat)
    requires 10 * b <= |stripped| && b <= |picks|
    ensures forall x :: x in Train(stripped, picks, b) ==>
      exists j :: 0 <= j < b && x in Block(stripped, j) && x !in Chosen(Block(stripped, j), picks[j])
  {
    if b > 0 {
      TrainFromOwnBlock(stripped, picks, b - 1);
      var block := Block(stripped, b - 1);
      var v := Chosen(block, picks[b - 1]);
      forall x | x in Train(stripped, picks, b)
        ensures exists j :: 0 <= j < b && x in Block(stripped, j) && x !in Chosen(Block(stripped, j), picks[j])
      {
        if x !in Train(stripped, picks, b - 1) {
          assert x in Without(block, v);
          WithoutMembers(block, v);
          assert x in Block(stripped, b - 1) && x !in Chosen(Block(stripped, b - 1), picks[b - 1]);
        }
      }
    }
  }

  /** Nothing of a block is lost: each of its lines is drawn for validation
      or goes to training. */
  lemma {:induction false} BlockCovered(stripped: seq<string>, picks: seq<Pick>, b: nat)
    requires 10 * b <= |stripped| && b <= |picks|
    ensures forall j, x :: 0 <= j < b && x in Block(stripped, j) ==>
      x in Chosen(Block(stripped, j), picks[j]) || x in Train(stripped, picks, b)
  {
    if b > 0 {
      BlockCovered(stripped, picks, b - 1);
      var block := Block(stripped, b - 1);
      var v := Chosen(block, picks[b - 1]);
      WithoutMembers(block, v);
      assert Train(stripped, picks, b) == Train(stripped, picks, b - 1) + Without(block, v);
    }
  }

  /** Entries after the last complete block change neither list. */
  lemma {:induction false} TailIgnored(stripped: seq<string>, extra: seq<string>, picks: seq<Pick>, b: nat)
    requires 10 * b <= |stripped| && b <= |picks|
    ensures Train(stripped + extra, picks, b) == Train(stripped, picks, b)
    ensures Valid(stripped + extra, picks, b) == Valid(stripped, picks, b)
  {
    if b > 0 {
      TailIgnored(stripped, extra, picks, b - 1);
      BlockOfExtended(stripped, extra, b - 1);
      var block := Block(stripped, b - 1);
      var v := Chosen(block, picks[b - 1]);
      calc {
        Train(stripped + extra, picks, b);
        Train(stripped + extra, picks, b - 1) + Without(Block(stripped + extra, b - 1), v);
        Train(stripped, picks, b - 1) + Without(block, v);
        Train(stripped, picks, b);
      }
      calc {
        Valid(stripped + extra, picks, b);
        Valid(stripped + extra, picks, b - 1) + Chosen(Block(stripped + extra, b - 1), picks[b - 1]);
        Valid(stripped, picks, b - 1) + v;
        Valid(stripped, picks, b);
      }
    }
  }

  /** A complete block does not change when entries are added after it. */
  lemma BlockOfExtended(stripped: seq<string>, extra: seq<string>, j: nat)
    requires 10 * j + 10 <= |stripped|
    ensures Block(stripped + extra, j) == Block(stripped, j)
  {
    assert (stripped + extra)[10 * j .. 10 * j + 10] == stripped[10 * j .. 10 * j + 10];
  }

  /** Stripping line by line does not look past the lines it strips. */
  lemma {:induction false} StripRangeLocal(lines: seq<string>, other: seq<string>, hi: nat)
    requires hi <= |lines| && hi <= |other| && lines[..hi] == other[..hi]
    ensures StripRange(lines, 0, hi) == StripRange(other, 0, hi)
    decreases hi
  {
    if hi > 0 {
      assert lines[hi - 1] == lines[..hi][hi - 1] == other[hi - 1];
      assert lines[..hi - 1] == lines[..hi][..hi - 1];
      assert other[..hi - 1] == other[..hi][..hi - 1];
      StripRangeLocal(lines, other, hi - 1);
    }
  }

  /** So a trailing incomplete block reaches neither list: with b complete
      blocks (b = |lines| / 10), both lists are those of the first 10b
      lines. */
  lemma IncompleteTailDropped(lines: seq<string>, picks: seq<Pick>, b: nat)
    requires 10 * b <= |lines| < 10 * b + 10 && b <= |picks|
    ensures Train(StripAll(lines), picks, b) == Train(StripAll(lines[..10 * b]), picks, b)
    ensures Valid(StripAll(lines), picks, b) == Valid(StripAll(lines[..10 * b]), picks, b)
  {
    var all := StripAll(lines);
    StripAllPrefix(lines, 10 * b);
    assert all == all[..10 * b] + all[10 * b..];
    TailIgnored(all[..10 * b], all[10 * b..], picks, b);
  }

  /** Stripping a prefix of the lines gives that prefix of the stripped lines. */
  lemma StripAllPrefix(lines: seq<string>, n: nat)
    requires n <= |lines|
    ensures StripAll(lines)[..n] == StripAll(lines[..n])
  {
    StripRangeSlice(lines, 0, n);
    StripRangeLocal(lines, lines[..n], n);
  }

  /** An entry of block j is one of the entries 10j .. 10j+9. */
  lemma BlockEntry(stripped: seq<string>, j: nat, x: string)
    requires 10 * j + 10 <= |stripped| && x in Block(stripped, j)
    ensures exists m :: 10 * j <= m < 10 * j + 10 && x == stripped[m]
  {
    var t :| 0 <= t < 10 && Block(stripped, j)[t] == x;
    assert x == stripped[10 * j + t];
  }

  /** Every entry of either list is an input line of a complete block,
      stripped. */
  lemma EntriesAreStrippedLines(lines: seq<string>, picks: seq<Pick>, b: nat)
    requires 10 * b <= |lines| && b <= |picks|
    ensures forall x :: x in Train(StripAll(lines), picks, b) || x in Valid(StripAll(lines), picks, b) ==>
      exists m :: 0 <= m < 10 * b && x == Strip(lines[m])
  {
    var all := StripAll(lines);
    TrainFromOwnBlock(all, picks, b);
    ValidFromOwnBlock(all, picks, b);
    forall x | x in Train(all, picks, b) || x in Valid(all, picks, b)
      ensures exists m :: 0 <= m < 10 * b && x == Strip(lines[m])
    {
      var j: nat;
      if x in Train(all, picks, b) {
        j :| 0 <= j < b && x in Block(all, j);
      } else {
        var k :| 0 <= k < |Valid(all, picks, b)| && Valid(all, picks, b)[k] == x;
        j := k / 2;
        assert k == 2 * j || k == 2 * j + 1;
      }
      BlockEntry(all, j, x);
      var m :| 10 * j <= m < 10 * j + 10 && x == all[m];
      StripAllAt(lines, m);
    }
  }

  /** Entry m of the stripped input is line m, stripped. */
  lemma StripAllAt(lines: seq<string>, m: nat)
    requires m < |lines|
    ensures StripAll(lines)[m] == Strip(lines[m])
  {
    StripRangeAt(lines, 0, |lines|);
  }
}
