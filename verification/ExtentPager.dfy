/** Reading the dynamic-capacity extent list page by page: the library's eight-extent page and the
    caller's loop over it, against a device that may answer anything. */
module ExtentPager {
  import opened Wire

  const PAGE: nat := 8
  const MOD32: nat := 0x1_0000_0000

  type uint32 = x: int | 0 <= x < 0x1_0000_0000

  /** The device refuses, or states a total and how many extents it returns. The response buffer has
      room for eight, whatever the device claims. */
  datatype Answer<T> = Refuse(rc: int) | Page(total: uint32, claim: uint32, buffer: seq<T>)

  predicate AnswersOk<T>(answers: seq<Answer<T>>) {
    forall k :: 0 <= k < |answers| ==> if answers[k].Refuse? then answers[k].rc != 0 else |answers[k].buffer| == PAGE
  }

  /** A value stored in 32 bits. */
  function Low32(x: nat): (y: uint32)
    ensures x < MOD32 ==> y == x
  {
    x % 0x1_0000_0000
  }

  // ---------------------------------------------------------------- the library's page

  /** The count that goes on the wire: what is asked for, or a page. */
  function PageCount(count: uint32): (n: uint32)
    ensures 1 <= n <= PAGE && (1 <= count <= PAGE ==> n == count) && (n != count ==> n == PAGE)
  {
    if count == 0 || count > 8 then 8 else count
  }

  /** Copies the claimed extents into the caller's page. Only the request was cut to a page, so the loop
      stays inside the two buffers if and only if the device claims no more than that. */
  method CopyExtents<T>(buffer: seq<T>, claim: uint32, out: array<T>) returns (inBounds: bool)
    requires |buffer| == PAGE && out.Length == PAGE
    modifies out
    ensures inBounds <==> claim <= PAGE
    ensures inBounds ==> out[..claim] == buffer[..claim]
  {
    var i := 0;
    while i < claim
      invariant 0 <= i <= claim && i <= PAGE && out[..i] == buffer[..i]
    {
      if i >= |buffer| || i >= out.Length { return false; }
      out[i] := buffer[i];
      i := i + 1;
    }
    return true;
  }

  datatype Fetch = Failed(rc: int) | OutOfBounds | Fetched

  /** One call of the library: the count on the wire, and the caller's page after it. */
  method GetDcExtentList<T>(count: uint32, a: Answer<T>, out: array<T>) returns (wire: uint32, r: Fetch)
    requires out.Length == PAGE && (a.Page? ==> |a.buffer| == PAGE)
    modifies out
    ensures wire == PageCount(count)
    ensures r == match a case Refuse(rc) => Failed(rc) case Page(_, claim, _) => if claim > PAGE then OutOfBounds else Fetched
    ensures r.Fetched? ==> out[..a.claim] == a.buffer[..a.claim]
  {
    wire := count;
    if wire == 0 || wire > 8 { wire := 8; }
    if a.Refuse? { return wire, Failed(a.rc); }
    var inBounds := CopyExtents(a.buffer, a.claim, out);
    r := if inBounds then Fetched else OutOfBounds;
  }

  // ---------------------------------------------------------------- what the loop adds up

  /** The extents claimed in the first `k` answers. */
  function Given<T>(answers: seq<Answer<T>>, k: nat): nat
    requires k <= |answers|
  {
    if k == 0 then 0 else Given(answers, k - 1) + if answers[k - 1].Page? then answers[k - 1].claim else 0
  }

  predicate Sound<T>(a: Answer<T>) { a.Page? && a.claim <= PAGE }

  predicate AllSound<T>(answers: seq<Answer<T>>, k: nat)
    requires k <= |answers|
  {
    forall i :: 0 <= i < k ==> Sound(answers[i])
  }

  /** Extents with their indices, which are 32 bits wide. */
  function Numbered<T>(start: nat, page: seq<T>): (r: seq<(uint32, T)>)
    ensures |r| == |page| && forall i :: 0 <= i < |page| ==> r[i] == (Low32(start + i), page[i])
  {
    seq(|page|, i requires 0 <= i < |page| => (Low32(start + i), page[i]))
  }

  /** What the first `k` pages show. */
  function Shown<T>(answers: seq<Answer<T>>, k: nat): seq<(uint32, T)>
    requires k <= |answers| && AnswersOk(answers) && AllSound(answers, k)
  {
    if k == 0 then []
    else Shown(answers, k - 1) + Numbered(Given(answers, k - 1), answers[k - 1].buffer[..answers[k - 1].claim])
  }

  /** The pages reach the total that the first one stated. */
  predicate Reached<T>(answers: seq<Answer<T>>, k: nat)
    requires k <= |answers|
  {
    k > 0 && answers[0].Page? && Given(answers, k) >= answers[0].total
  }

  lemma {:induction false} GivenRises<T>(answers: seq<Answer<T>>, i: nat, k: nat)
    requires i <= k <= |answers|
    ensures Given(answers, i) <= Given(answers, k)
  {
    if i < k { GivenRises(answers, i, k - 1); }
  }

  // ---------------------------------------------------------------- the caller's loop

  datatype Ask = Ask(start: nat, count: nat)

  /** The k-th request continues behind the extents given so far and asks for what is missing, cut to a page. */
  predicate Continues<T>(answers: seq<Answer<T>>, k: nat, a: Ask)
    requires k <= |answers|
  {
    if k == 0 then a == Ask(0, PAGE)
    else
      && answers[0].Page? && Given(answers, k) < answers[0].total
      && a == Ask(Given(answers, k), Min(PAGE, answers[0].total - Given(answers, k)))
  }

  datatype End = Running | Ended(rc: int) | Overrun

  /** How the loop stands after `k` pages. */
  predicate EndsWith<T>(answers: seq<Answer<T>>, k: nat, end: End)
    requires k <= |answers|
  {
    match end
    case Running => k == |answers| && !Reached(answers, k)
    case Overrun => k < |answers| && answers[k].Page? && answers[k].claim > PAGE
    case Ended(rc) => if rc == 0 then Reached(answers, k) else k < |answers| && answers[k] == Refuse(rc)
  }

  method ShowPage<T>(page: array<T>, claim: uint32, start: uint32, before: seq<(uint32, T)>) returns (shown: seq<(uint32, T)>)
    requires claim <= page.Length
    ensures shown == before + Numbered(start, page[..claim])
  {
    shown := before;
    var i := 0;
    while i < claim
      invariant 0 <= i <= claim && shown == before + Numbered(start, page[..i])
    {
      assert page[..i + 1] == page[..i] + [page[i]];
      shown := shown + [(Low32(start + i), page[i])];
      i := i + 1;
    }
  }

  predicate Unreached<T>(answers: seq<Answer<T>>, k: nat)
    requires k <= |answers|
  {
    forall i :: 0 < i <= k ==> !Reached(answers, i)
  }

  predicate AskedFor<T>(answers: seq<Answer<T>>, asked: seq<Ask>) {
    |asked| <= |answers| && forall k :: 0 <= k < |asked| ==> Continues(answers, k, asked[k])
  }

  lemma {:induction false} AskedNext<T>(answers: seq<Answer<T>>, asked: seq<Ask>, a: Ask)
    requires AskedFor(answers, asked) && |asked| < |answers| && Continues(answers, |asked|, a)
    ensures AskedFor(answers, asked + [a])
  {
  }

  lemma {:induction false} PageTaken<T>(answers: seq<Answer<T>>, k: nat)
    requires AnswersOk(answers) && k < |answers| && AllSound(answers, k) && Sound(answers[k])
    ensures AllSound(answers, k + 1) && Given(answers, k + 1) == Given(answers, k) + answers[k].claim
    ensures Shown(answers, k + 1) == Shown(answers, k) + Numbered(Given(answers, k), answers[k].buffer[..answers[k].claim])
  {
  }

  /** Between two pages: what was shown, how many extents were given, and that some are missing. */
  ghost predicate Between<T>(answers: seq<Answer<T>>, k: nat, shown: seq<(uint32, T)>, returned: nat, total: nat) {
    && k <= |answers| && AnswersOk(answers) && AllSound(answers, k) && Unreached(answers, k)
    && shown == Shown(answers, k) && returned == Given(answers, k)
    && (k > 0 ==> total == answers[0].total && returned < total)
  }

  lemma {:induction false} BetweenNext<T>(answers: seq<Answer<T>>, k: nat, shown: seq<(uint32, T)>, returned: nat, total: nat)
    requires Between(answers, k, shown, returned, total) && k < |answers| && Sound(answers[k])
    requires k == 0 ==> total == answers[0].total
    ensures var a := answers[k]; var longer := shown + Numbered(returned, a.buffer[..a.claim]);
            && AllSound(answers, k + 1) && longer == Shown(answers, k + 1)
            && (Reached(answers, k + 1) <==> returned + a.claim >= total)
            && (returned + a.claim < total ==> Between(answers, k + 1, longer, returned + a.claim, total))
  {
    PageTaken(answers, k);
  }

  /** The loop, up to the last of the answers. `pages` counts the pages shown. It goes on while answers
      come in bounds and the total is not reached, and it ends exactly when one of these fails. */
  method ShowDcExtents<T>(answers: seq<Answer<T>>, blank: T)
    returns (end: End, asked: seq<Ask>, shown: seq<(uint32, T)>, pages: nat)
    requires AnswersOk(answers)
    ensures pages <= |answers| && AllSound(answers, pages) && shown == Shown(answers, pages)
    ensures EndsWith(answers, pages, end) && (pages > 0 ==> Unreached(answers, pages - 1))
    ensures |asked| == pages + (if end.Overrun? || (end.Ended? && end.rc != 0) then 1 else 0) && AskedFor(answers, asked)
    ensures end == Running <==> AllSound(answers, |answers|) && !Reached(answers, |answers|)
  {
    var page := new T[PAGE](_ => blank);
    var returned: nat, start: uint32, count: uint32, total: nat := 0, 0, 0, 0;
    asked, shown, pages := [], [], 0;
    while pages < |answers|
      invariant Between(answers, pages, shown, returned, total) && |asked| == pages && AskedFor(answers, asked)
      invariant start == returned && count == if pages == 0 then 0 else total - returned
    {
      var a := answers[pages];
      var wire, r := GetDcExtentList(count, a, page);
      AskedNext(answers, asked, Ask(start, wire));
      asked := asked + [Ask(start, wire)];
      if r.Failed? { return Ended(r.rc), asked, shown, pages; }
      if r.OutOfBounds? { return Overrun, asked, shown, pages; }
      if pages == 0 { total := a.total; }
      BetweenNext(answers, pages, shown, returned, total);
      shown := ShowPage(page, a.claim, start, shown);
      returned, pages := returned + a.claim, pages + 1;
      if returned >= total {
        EndIsFinal(answers, pages);
        return Ended(0), asked, shown, pages;
      }
      start, count := Low32(returned), Low32(total - returned);
    }
    return Running, asked, shown, pages;
  }

  lemma {:induction false} EndIsFinal<T>(answers: seq<Answer<T>>, k: nat)
    requires k <= |answers| && Reached(answers, k)
    ensures Reached(answers, |answers|)
  {
    GivenRises(answers, k, |answers|);
  }

  // ---------------------------------------------------------------- an honest device

  /** Answer `k` is a stretch of the device's list, from where the pages before it end. */
  predicate HonestAt<T(==)>(list: seq<T>, answers: seq<Answer<T>>, k: nat)
    requires k < |answers| && AnswersOk(answers)
  {
    var a, at := answers[k], Given(answers, k);
    a.Page? ==>
      && a.total == |list| && a.claim <= PAGE && at + a.claim <= |list|
      && a.buffer[..a.claim] == list[at..at + a.claim]
  }

  lemma {:induction false} HonestPage<T>(list: seq<T>, answers: seq<Answer<T>>, k: nat)
    requires AnswersOk(answers) && k < |answers| && AllSound(answers, k) && Sound(answers[k])
    requires HonestAt(list, answers, k) && |list| < MOD32 && Given(answers, k) <= |list|
    requires Shown(answers, k) == Numbered(0, list[..Given(answers, k)])
    ensures AllSound(answers, k + 1) && Given(answers, k + 1) <= |list|
    ensures Shown(answers, k + 1) == Numbered(0, list[..Given(answers, k + 1)])
  {
    PageTaken(answers, k);
    NumberedJoin(list, Given(answers, k), Given(answers, k + 1));
  }

  lemma {:induction false} NumberedJoin<T>(list: seq<T>, at: nat, end: nat)
    requires at <= end <= |list|
    ensures Numbered(0, list[..at]) + Numbered(at, list[at..end]) == Numbered(0, list[..end])
  {
    var joined := Numbered(0, list[..at]) + Numbered(at, list[at..end]);
    forall i | 0 <= i < end ensures joined[i] == Numbered(0, list[..end])[i] {
      if i >= at { assert joined[i] == Numbered(at, list[at..end])[i - at]; }
    }
  }

  /** An honest device has its list shown in order, with nothing doubled or skipped. */
  lemma {:induction false} HonestShows<T>(list: seq<T>, answers: seq<Answer<T>>, k: nat)
    requires AnswersOk(answers) && k <= |answers| && AllSound(answers, k) && |list| < MOD32
    requires forall i :: 0 <= i < k ==> HonestAt(list, answers, i)
    ensures Given(answers, k) <= |list| && Shown(answers, k) == Numbered(0, list[..Given(answers, k)])
  {
    if k > 0 {
      HonestShows(list, answers, k - 1);
      HonestPage(list, answers, k - 1);
    }
  }

  /** All of it, once the total is reached. */
  lemma {:induction false} HonestShowsAll<T>(list: seq<T>, answers: seq<Answer<T>>, k: nat)
    requires AnswersOk(answers) && k <= |answers| && AllSound(answers, k) && |list| < MOD32
    requires forall i :: 0 <= i < k ==> HonestAt(list, answers, i)
    ensures Reached(answers, k) <==> k > 0 && Shown(answers, k) == Numbered(0, list)
  {
    HonestShows(list, answers, k);
    if k > 0 {
      assert HonestAt(list, answers, 0) && Sound(answers[0]);
      assert list[..|list|] == list;
    }
  }

  /** Each page has at least so many extents, as long as that many are missing. */
  predicate AtLeast<T>(answers: seq<Answer<T>>, k: nat, total: nat, least: nat)
    requires k <= |answers|
  {
    forall i :: 0 <= i < k ==> PageAtLeast(answers, i, total, least)
  }

  predicate PageAtLeast<T>(answers: seq<Answer<T>>, i: nat, total: nat, least: nat)
    requires i < |answers|
  {
    answers[i].Page? && answers[i].claim >= Min(least, total - Given(answers, i))
  }

  /** A device that always makes progress is read in at most as many pages as it has extents. */
  lemma {:induction false} ProgressGives<T>(answers: seq<Answer<T>>, k: nat, total: nat)
    requires k <= |answers| && AtLeast(answers, k, total, 1)
    ensures Given(answers, k) >= Min(k, total)
  {
    if k > 0 {
      ProgressGives(answers, k - 1, total);
      assert PageAtLeast(answers, k - 1, total, 1);
    }
  }

  /** And one that fills its pages in the fewest that pages of eight allow. */
  lemma {:induction false} FullPagesGive<T>(answers: seq<Answer<T>>, k: nat, total: nat)
    requires k <= |answers| && AtLeast(answers, k, total, 8)
    ensures Given(answers, k) >= Min(8 * k, total)
  {
    if k > 0 {
      FullPagesGive(answers, k - 1, total);
      assert PageAtLeast(answers, k - 1, total, 8);
    }
  }

  lemma {:induction false} PagesGiveAtMost<T>(answers: seq<Answer<T>>, k: nat)
    requires k <= |answers| && AllSound(answers, k)
    ensures Given(answers, k) <= 8 * k
  {
    if k > 0 {
      PagesGiveAtMost(answers, k - 1);
      assert Sound(answers[k - 1]);
    }
  }

  // ---------------------------------------------------------------- devices the loop fails on

  /** A device that claims nine extents sends the copy out of bounds at once. */
  method NineExtents<T>(buffer: seq<T>, blank: T) returns (end: End)
    requires |buffer| == PAGE
    ensures end == Overrun
  {
    var answers := [Page(9, 9, buffer)];
    var asked, shown, pages;
    end, asked, shown, pages := ShowDcExtents(answers, blank);
    assert !Sound(answers[0]);
    assert pages == 0;
  }

  /** A device that holds extents and returns none is asked for ever. */
  lemma {:induction false} EmptyPagesGiveNothing<T>(answers: seq<Answer<T>>, k: nat)
    requires k <= |answers| && forall i :: 0 <= i < |answers| ==> answers[i].Page? && answers[i].claim == 0 && answers[i].total > 0
    ensures AllSound(answers, k) && !Reached(answers, k) && Given(answers, k) == 0
  {
    if k > 0 { EmptyPagesGiveNothing(answers, k - 1); }
  }
}
