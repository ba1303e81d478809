/** Store paths of image layers: an index shared by all clones, recovered from the directory at start. */
module LayerStore {
  import opened Results

  const USIZE_MAX: nat := 0xFFFF_FFFF_FFFF_FFFF

  type usize = n: nat | n <= USIZE_MAX

  /** Unchecked machine addition. */
  function WrappingAdd(a: usize, b: usize): usize {
    (a + b) % (USIZE_MAX + 1)
  }

  // ---------- decimal names ----------

  function Digit(d: nat): char
    requires d < 10
  {
    '0' + d as char
  }

  function ToDecimal(n: nat): (s: string)
    ensures |s| > 0 && s[0] != '+'
  {
    if n < 10 then [Digit(n)] else ToDecimal(n / 10) + [Digit(n % 10)]
  }

  function ParseDigits(s: string): Option<nat>
    requires s != ""
  {
    var last := s[|s| - 1];
    if !('0' <= last <= '9') then None
    else
      var d := last as nat - '0' as nat;
      if |s| == 1 then Some(d)
      else
        match ParseDigits(s[..|s| - 1])
        case None => None
        case Some(front) => Some(10 * front + d)
  }

  /** `str::parse::<usize>`: an optional plus sign, at least one digit, no overflow. */
  function ParseUsize(s: string): Option<usize> {
    var digits := if s != "" && s[0] == '+' then s[1..] else s;
    if digits == "" then None
    else
      match ParseDigits(digits)
      case None => None
      case Some(n) => if n <= USIZE_MAX then Some(n) else None
  }

  lemma {:induction false} ParseDecimal(n: nat)
    ensures ParseDigits(ToDecimal(n)) == Some(n)
  {
    if n >= 10 {
      ParseDecimal(n / 10);
      assert ToDecimal(n)[..|ToDecimal(n)| - 1] == ToDecimal(n / 10);
    }
  }

  lemma ParseUsizeOfDecimal(n: usize)
    ensures ParseUsize(ToDecimal(n)) == Some(n)
  {
    ParseDecimal(n);
  }

  predicate AllDigits(s: string) {
    forall c <- s :: '0' <= c <= '9'
  }

  lemma {:induction false} DigitsParse(s: string)
    requires s != ""
    ensures ParseDigits(s).Some? <==> AllDigits(s)
  {
    var n := |s| - 1;
    assert s == s[..n] + [s[n]];
    if n > 0 {
      DigitsParse(s[..n]);
    }
    AllDigitsSnoc(s[..n], s[n]);
  }

  lemma AllDigitsSnoc(front: string, c: char)
    ensures AllDigits(front + [c]) <==> AllDigits(front) && '0' <= c <= '9'
  {
    assert c in front + [c] && forall d <- front :: d in front + [c];
  }

  /** The value of a list of digits, digit by digit from the left. */
  lemma DigitsAre(front: string, c: char)
    requires '0' <= c <= '9' && (front == "" || ParseDigits(front).Some?)
    ensures ParseDigits(front + [c]) ==
            Some((if front == "" then 0 else 10 * ParseDigits(front).value) + (c as nat - '0' as nat))
  {
    assert (front + [c])[..|front|] == front;
  }

  /** What is an index name: decimal digits that fit in a machine word, perhaps after a plus sign. */
  lemma IndexNameIff(s: string)
    ensures ParseUsize(s).Some? <==>
            exists sign, digits :: s == sign + digits && (sign == "" || sign == "+") && digits != "" &&
              AllDigits(digits) && ParseDigits(digits).Some? && ParseDigits(digits).value <= USIZE_MAX
  {
    if ParseUsize(s).Some? {
      var sign := if s[0] == '+' then "+" else "";
      var digits := s[|sign|..];
      DigitsParse(digits);
      assert s == sign + digits;
    }
    forall sign, digits | s == sign + digits && (sign == "" || sign == "+") && digits != "" &&
                          AllDigits(digits) && ParseDigits(digits).Some? && ParseDigits(digits).value <= USIZE_MAX
      ensures ParseUsize(s).Some?
    {
      assert digits[0] in digits;
      assert s[|sign|..] == digits;
    }
  }

  /** The name handed out for an index is its decimal form, without a sign or leading zeros. */
  lemma {:induction false} DecimalName(n: nat)
    ensures AllDigits(ToDecimal(n)) && ParseDigits(ToDecimal(n)) == Some(n)
    ensures n > 0 ==> ToDecimal(n)[0] != '0'
    decreases n
  {
    ParseDecimal(n);
    DigitsParse(ToDecimal(n));
    if n >= 10 {
      DecimalName(n / 10);
    }
  }

  // ---------- the index recovered at start ----------

  datatype ScanError = BadName

  /** The scan over directory entries, in whatever order they are listed. */
  function Scan(names: seq<string>): Result<usize, ScanError> {
    if names == [] then Success(0)
    else
      match Scan(names[..|names| - 1])
      case Failure(error) => Failure(error)
      case Success(next) =>
        match ParseUsize(names[|names| - 1])
        case None => Failure(BadName)
        case Some(n) => Success(if n >= next then WrappingAdd(n, 1) else next)
  }

  method GetLayerIndex(dir: Option<seq<string>>) returns (r: Result<usize, ScanError>)
    ensures r == if dir.None? then Success(0) else Scan(dir.value)
  {
    if dir.None? {
      return Success(0);
    }
    var names := dir.value;
    var next: usize := 0;
    for i := 0 to |names|
      invariant Scan(names[..i]) == Success(next)
    {
      assert names[..i + 1][..i] == names[..i];
      ScanFailureStays(names, i + 1);
      match ParseUsize(names[i]) {
        case None => return Failure(BadName);
        case Some(n) =>
          if n >= next {
            next := WrappingAdd(n, 1);
          }
      }
    }
    assert names[..|names|] == names;
    return Success(next);
  }

  lemma {:induction false} ScanFailureStays(names: seq<string>, i: nat)
    requires i <= |names|
    ensures Scan(names[..i]).Failure? ==> Scan(names) == Scan(names[..i])
    decreases |names| - i
  {
    if i < |names| {
      assert names[..i + 1][..i] == names[..i];
      ScanFailureStays(names, i + 1);
    } else {
      assert names[..i] == names;
    }
  }

  predicate AllParse(names: seq<string>) {
    forall name <- names :: ParseUsize(name).Some?
  }

  /** A start succeeds exactly when every directory entry is the name of an index. */
  lemma {:induction false} ScanSucceedsIff(names: seq<string>)
    ensures Scan(names).Success? <==> AllParse(names)
  {
    if names != [] {
      var n := |names| - 1;
      ScanSucceedsIff(names[..n]);
      AllParseSnoc(names[..n], names[n]);
      assert names == names[..n] + [names[n]];
    }
  }

  lemma AllParseSnoc(front: seq<string>, last: string)
    ensures AllParse(front + [last]) <==> AllParse(front) && ParseUsize(last).Some?
  {
    assert last in front + [last];
    assert forall name <- front :: name in front + [last];
  }

  predicate NoneIsMax(names: seq<string>) {
    forall name <- names :: ParseUsize(name) != Some(USIZE_MAX)
  }

  predicate AllBelow(names: seq<string>, next: nat) {
    forall name <- names :: Below(name, next)
  }

  /** The recovered index is beyond every index present exactly when the largest word is not among them. */
  lemma {:induction false} ScanBeyondIff(names: seq<string>)
    requires AllParse(names)
    ensures Scan(names).Success?
    ensures AllBelow(names, Scan(names).value) <==> NoneIsMax(names)
  {
    if names != [] {
      var front, last := names[..|names| - 1], names[|names| - 1];
      assert names == front + [last];
      AllParseSnoc(front, last);
      ScanBeyondIff(front);
      ScanSnoc(front, last);
      BelowSnoc(front, last, Scan(front).value);
    }
  }

  /** One more directory entry. */
  lemma ScanSnoc(front: seq<string>, last: string)
    requires Scan(front).Success? && ParseUsize(last).Some?
    ensures Scan(front + [last]) == Success(NextIndex(Scan(front).value, ParseUsize(last).value))
  {
    assert (front + [last])[..|front|] == front;
  }

  function NextIndex(next: usize, n: usize): usize {
    if n >= next then WrappingAdd(n, 1) else next
  }

  lemma BelowSnoc(front: seq<string>, last: string, next: usize)
    requires ParseUsize(last).Some? && (AllBelow(front, next) <==> NoneIsMax(front))
    ensures AllBelow(front + [last], NextIndex(next, ParseUsize(last).value)) <==> NoneIsMax(front + [last])
  {
    var names, n := front + [last], ParseUsize(last).value;
    assert last in names && forall name <- front :: name in names;
    if NoneIsMax(names) {
      assert NoneIsMax(front);
      forall name <- names
        ensures Below(name, NextIndex(next, n))
      {
        assert name == last || Below(name, next);
      }
    } else {
      MaxIsNotBelow(names, NextIndex(next, n));
    }
  }

  lemma MaxIsNotBelow(names: seq<string>, next: usize)
    requires !NoneIsMax(names)
    ensures !AllBelow(names, next)
  {
    var name :| name in names && ParseUsize(name) == Some(USIZE_MAX);
    assert !Below(name, next);
  }

  predicate HasIndex(names: seq<string>, n: nat) {
    exists name <- names :: ParseUsize(name) == Some(n)
  }

  lemma HasIndexSnoc(front: seq<string>, last: string, n: nat)
    ensures HasIndex(front + [last], n) <==> HasIndex(front, n) || ParseUsize(last) == Some(n)
  {
    var names := front + [last];
    assert last in names && forall name <- front :: name in names;
  }

  /** It is one past an index that is present, so it does not depend on the listing order. */
  lemma {:induction false} ScanIsPastLargest(names: seq<string>)
    requires AllParse(names) && NoneIsMax(names) && names != []
    ensures Scan(names).Success? && Scan(names).value > 0 && HasIndex(names, Scan(names).value - 1)
  {
    hide ParseUsize, Scan, HasIndex, AllParse, NoneIsMax;
    var front, last := names[..|names| - 1], names[|names| - 1];
    assert names == front + [last];
    AllParseSnoc(front, last);
    NoneIsMaxSnoc(front, last);
    if front != [] {
      ScanIsPastLargest(front);
    }
    PastLargestSnoc(front, last);
  }

  lemma NoneIsMaxSnoc(front: seq<string>, last: string)
    ensures NoneIsMax(front + [last]) <==> NoneIsMax(front) && ParseUsize(last) != Some(USIZE_MAX)
  {
    assert last in front + [last];
    assert forall name <- front :: name in front + [last];
  }

  lemma PastLargestSnoc(front: seq<string>, last: string)
    requires AllParse(front) && ParseUsize(last).Some? && ParseUsize(last) != Some(USIZE_MAX)
    requires front != [] ==> Scan(front).Success? && Scan(front).value > 0 && HasIndex(front, Scan(front).value - 1)
    ensures var s := Scan(front + [last]);
            s.Success? && s.value > 0 && HasIndex(front + [last], s.value - 1)
  {
    hide ParseUsize, HasIndex, AllParse;
    ScanSucceedsIff(front);
    ScanSnoc(front, last);
    HasIndexSnoc(front, last, Scan(front + [last]).value - 1);
  }

  // ---------- the store ----------

  class AtomicUsize {
    var value: usize

    constructor (value: usize)
      ensures this.value == value
    {
      this.value := value;
    }

    method FetchAdd(n: usize) returns (before: usize)
      modifies this
      ensures before == old(value) && value == WrappingAdd(old(value), n)
    {
      before := value;
      value := WrappingAdd(value, n);
    }
  }

  /** `Path::join` for a relative name. */
  function JoinPath(dir: string, name: string): string {
    if dir == "" || dir[|dir| - 1] == '/' then dir + name else dir + "/" + name
  }

  /** The name is the path's last component, under the directory. */
  lemma LastComponent(dir: string, name: string)
    requires dir != ""
    ensures exists parent :: JoinPath(dir, name) == parent + ("/" + name) && (dir == parent || dir == parent + "/")
  {
    if dir[|dir| - 1] == '/' {
      var parent := dir[..|dir| - 1];
      assert dir == parent + "/" && dir + name == parent + ("/" + name);
    } else {
      assert dir + "/" + name == dir + ("/" + name);
    }
  }

  lemma JoinPathInjective(dir: string, a: string, b: string)
    requires JoinPath(dir, a) == JoinPath(dir, b)
    ensures a == b
  {
    var front := if dir == "" || dir[|dir| - 1] == '/' then dir else dir + "/";
    assert (front + a)[|front|..] == a && (front + b)[|front|..] == b;
  }

  class Store {
    const dataDir: string
    const layersIndex: AtomicUsize

    constructor (dataDir: string, layersIndex: AtomicUsize)
      ensures this.dataDir == dataDir && this.layersIndex == layersIndex
    {
      this.dataDir, this.layersIndex := dataDir, layersIndex;
    }

    /** A clone shares the counter. */
    method Clone() returns (s: Store)
      ensures fresh(s) && s.dataDir == dataDir && s.layersIndex == layersIndex
    {
      s := new Store(dataDir, layersIndex);
    }

    method NewLayerStorePath() returns (path: string)
      modifies layersIndex
      ensures path == JoinPath(dataDir, ToDecimal(old(layersIndex.value)))
      ensures layersIndex.value == WrappingAdd(old(layersIndex.value), 1)
    {
      var index := layersIndex.FetchAdd(1);
      path := JoinPath(dataDir, ToDecimal(index));
    }
  }

  // ---------- allocations across clones and restarts ----------

  /** The directory's entries, the shared counter, and every name handed out so far. */
  datatype World = World(dirs: set<string>, next: usize, given: seq<string>)

  datatype Event = Allocate | Create(name: string) | Restart(listing: seq<string>)

  ghost predicate Lists(listing: seq<string>, dirs: set<string>) {
    forall name :: name in listing <==> name in dirs
  }

  /** One allocation by any clone, one directory made, or a restart that lists the directory. */
  ghost predicate Happens(w: World, e: Event, w': World) {
    match e
    case Allocate => w' == w.(next := WrappingAdd(w.next, 1), given := w.given + [ToDecimal(w.next)])
    case Create(name) => name in w.given && w' == w.(dirs := w.dirs + {name})
    case Restart(listing) =>
      Lists(listing, w.dirs) && Scan(listing).Success? && w' == w.(next := Scan(listing).value)
  }

  predicate Below(name: string, next: nat) {
    ParseUsize(name).Some? && ParseUsize(name).value < next
  }

  predicate Distinct(names: seq<string>) {
    forall i, j :: 0 <= i < j < |names| ==> names[i] != names[j]
  }

  /** Every directory and every name handed out lies below the counter, and no name was handed out twice. */
  ghost predicate StoreInv(w: World) {
    && (forall name <- w.dirs :: Below(name, w.next))
    && (forall name <- w.given :: Below(name, w.next) && name == ToDecimal(ParseUsize(name).value))
    && Distinct(w.given)
  }

  /** A directory is present whose index is at least that of every name handed out. */
  ghost predicate Covered(w: World) {
    w.given == [] || exists top <- w.dirs :: Covers(top, w.given)
  }

  predicate Covers(top: string, names: seq<string>) {
    ParseUsize(top).Some? && forall name <- names :: Below(name, ParseUsize(top).value + 1)
  }

  /** What a step needs: room in the counter, and at a restart the directory of a latest name, or a later one. */
  ghost predicate Careful(w: World, e: Event) {
    match e
    case Allocate => w.next < USIZE_MAX
    case Create(_) => true
    case Restart(_) => Covered(w)
  }

  lemma RestartScans(w: World, listing: seq<string>)
    requires StoreInv(w) && Lists(listing, w.dirs)
    ensures AllParse(listing) && NoneIsMax(listing) && Scan(listing).Success?
    ensures forall name <- w.dirs :: Below(name, Scan(listing).value)
    ensures listing != [] ==> exists top <- w.dirs :: ParseUsize(top) == Some(Scan(listing).value - 1)
  {
    forall name <- listing
      ensures ParseUsize(name).Some? && ParseUsize(name) != Some(USIZE_MAX)
    {
      assert name in w.dirs;
    }
    assert AllParse(listing) && NoneIsMax(listing);
    ScanBeyondIff(listing);
    forall name <- w.dirs
      ensures Below(name, Scan(listing).value)
    {
      assert name in listing;
    }
    if listing != [] {
      ScanIsPastLargest(listing);
      var top :| top in listing && ParseUsize(top) == Some(Scan(listing).value - 1);
      assert top in w.dirs;
    }
  }

  /**
   * A restart keeps new names apart from old ones exactly when a directory is present whose index is
   * at least that of every name handed out. Names before it may have lost their directories.
   */
  lemma RestartKeepsInvIff(w: World, listing: seq<string>, w': World)
    requires StoreInv(w) && Happens(w, Restart(listing), w')
    ensures StoreInv(w') <==> Covered(w)
  {
    RestartScans(w, listing);
    if w.given != [] && StoreInv(w') {
      assert w.given[0] in w'.given;
      assert listing != [];
      var top :| top in w.dirs && ParseUsize(top) == Some(w'.next - 1);
      assert Covers(top, w.given);
    }
    if w.given != [] && Covered(w) {
      var top :| top in w.dirs && Covers(top, w.given);
      assert Below(top, w'.next);
      forall name <- w.given
        ensures Below(name, w'.next)
      {
        assert Below(name, ParseUsize(top).value + 1);
      }
    }
  }

  /** An allocation keeps the invariant exactly when the counter has room. */
  lemma AllocateKeepsInvIff(w: World, w': World)
    requires StoreInv(w) && Happens(w, Allocate, w')
    ensures StoreInv(w') <==> w.next < USIZE_MAX
    ensures ToDecimal(w.next) !in w.dirs && ToDecimal(w.next) !in w.given
  {
    ParseUsizeOfDecimal(w.next);
    var name := ToDecimal(w.next);
    assert w'.given[|w.given|] == name && name in w'.given;
    if w.next < USIZE_MAX {
      forall other <- w'.given
        ensures Below(other, w'.next) && other == ToDecimal(ParseUsize(other).value)
      {
        assert other in w.given || other == name;
      }
    }
  }

  /** A step keeps the invariant exactly under that condition, and a new name is new. */
  lemma StepKeepsInvIff(w: World, e: Event, w': World)
    requires StoreInv(w) && Happens(w, e, w')
    ensures StoreInv(w') <==> Careful(w, e)
    ensures e.Allocate? ==> ToDecimal(w.next) !in w.dirs && ToDecimal(w.next) !in w.given
  {
    match e
    case Allocate => AllocateKeepsInvIff(w, w');
    case Create(_) =>
    case Restart(listing) => RestartKeepsInvIff(w, listing, w');
  }

  ghost predicate IsRun(worlds: seq<World>, events: seq<Event>) {
    && |worlds| == |events| + 1
    && forall k :: 0 <= k < |events| ==> Happens(worlds[k], events[k], worlds[k + 1]) && Careful(worlds[k], events[k])
  }

  /** What was handed out, and which directories were made, stays so. */
  ghost predicate Extends(w: World, w': World) {
    && w.dirs <= w'.dirs && w.given <= w'.given
    && forall a :: |w.given| <= a < |w'.given| ==> w'.given[a] !in w.dirs
  }

  lemma {:induction false} RunKeepsInv(worlds: seq<World>, events: seq<Event>, i: nat)
    requires IsRun(worlds, events) && i <= |events| && StoreInv(worlds[0])
    ensures StoreInv(worlds[i]) && Extends(worlds[0], worlds[i])
  {
    if i > 0 {
      RunKeepsInv(worlds, events, i - 1);
      assert Happens(worlds[i - 1], events[i - 1], worlds[i - 1 + 1]) && Careful(worlds[i - 1], events[i - 1]);
      StepKeepsInvIff(worlds[i - 1], events[i - 1], worlds[i]);
    }
  }

  /**
   * Over any interleaving of clones and restarts, all paths handed out are different from each other
   * and from the directories present at the start.
   */
  lemma PathsDistinct(worlds: seq<World>, events: seq<Event>, dir: string, i: nat)
    requires IsRun(worlds, events) && i <= |events| && StoreInv(worlds[0])
    ensures worlds[0].given <= worlds[i].given
    ensures forall a, b :: 0 <= a < b < |worlds[i].given| ==>
              JoinPath(dir, worlds[i].given[a]) != JoinPath(dir, worlds[i].given[b])
    ensures forall a, name :: |worlds[0].given| <= a < |worlds[i].given| && name in worlds[0].dirs ==>
              JoinPath(dir, worlds[i].given[a]) != JoinPath(dir, name)
  {
    RunKeepsInv(worlds, events, i);
    var given := worlds[i].given;
    forall a, b | 0 <= a < b < |given|
      ensures JoinPath(dir, given[a]) != JoinPath(dir, given[b])
    {
      if JoinPath(dir, given[a]) == JoinPath(dir, given[b]) {
        JoinPathInjective(dir, given[a], given[b]);
      }
    }
    forall a, name | |worlds[0].given| <= a < |given| && name in worlds[0].dirs
      ensures JoinPath(dir, given[a]) != JoinPath(dir, name)
    {
      if JoinPath(dir, given[a]) == JoinPath(dir, name) {
        JoinPathInjective(dir, given[a], name);
      }
    }
  }

  // ---------- when a path is handed out twice ----------

  /** So many allocations in a row. */
  function Allocations(w: World, n: nat): (w': World)
    ensures w'.dirs == w.dirs
    ensures w.next + n <= USIZE_MAX ==> w'.next == w.next + n
    ensures |w'.given| == |w.given| + n && w.given <= w'.given
  {
    if n == 0 then w
    else
      var before := Allocations(w, n - 1);
      before.(next := WrappingAdd(before.next, 1), given := before.given + [ToDecimal(before.next)])
  }

  /**
   * After a restart without such a directory, some name handed out before it comes up again if the
   * store goes on allocating.
   */
  lemma LostPathIsReused(w: World, listing: seq<string>, w': World) returns (a: nat, n: nat)
    requires StoreInv(w) && Happens(w, Restart(listing), w') && !Covered(w)
    ensures a < |w.given| && Allocations(w', n + 1).given[|w.given| + n] == w.given[a]
  {
    a := NameAtOrPast(w, listing, w');
    n := ParseUsize(w.given[a]).value - w'.next;
  }

  lemma NameAtOrPast(w: World, listing: seq<string>, w': World) returns (a: nat)
    requires StoreInv(w) && Happens(w, Restart(listing), w') && !Covered(w)
    ensures a < |w.given| && ParseUsize(w.given[a]).Some? && ParseUsize(w.given[a]).value >= w'.next
    ensures w.given[a] == ToDecimal(ParseUsize(w.given[a]).value)
  {
    RestartKeepsInvIff(w, listing, w');
    RestartScans(w, listing);
    var name :| name in w.given && !Below(name, w'.next);
    a :| a < |w.given| && w.given[a] == name;
    assert Below(name, w.next);
  }
}
