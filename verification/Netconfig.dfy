/**
 * Sessions on the transport database (getnetconfig.c): all sessions share one
 * list, read lazily from the file, and each keeps its own place in it. Every
 * operation runs under the database lock and so is one step.
 */
module Netconfig {
  import opened Bytes

  /** A line as fgets returns it. Malformed lines do not parse. */
  datatype Line = Comment | Malformed | Entry(fields: string)

  function Entries(lines: seq<Line>): seq<string> {
    if lines == [] then []
    else (if lines[0].Entry? then [lines[0].fields] else []) + Entries(lines[1..])
  }

  /** The first line that is no comment does not parse. */
  predicate Spoilt(lines: seq<Line>) {
    lines != [] && (lines[0].Malformed? || (lines[0].Comment? && Spoilt(lines[1..])))
  }

  /** What is left once that line has been read. */
  function After(lines: seq<Line>): seq<Line> {
    if lines == [] then [] else if lines[0].Comment? then After(lines[1..]) else lines[1..]
  }

  predicate Clean(lines: seq<Line>) { forall l <- lines :: !l.Malformed? }

  /** One line is read, comments aside: an entry, or a line that does not parse. */
  lemma {:induction false} AfterTakesOne(lines: seq<Line>)
    ensures Entries(lines)
            == (if Spoilt(lines) || Entries(lines) == [] then [] else [Entries(lines)[0]]) + Entries(After(lines))
    ensures !Spoilt(lines) && Entries(lines) == [] ==> After(lines) == []
  {
    if lines != [] {
      assert Entries(lines) == (if lines[0].Entry? then [lines[0].fields] else []) + Entries(lines[1..]);
      if lines[0].Comment? { AfterTakesOne(lines[1..]); }
    }
  }

  lemma {:induction false} CleanStaysClean(lines: seq<Line>)
    requires Clean(lines)
    ensures !Spoilt(lines) && Clean(After(lines))
  {
    if lines != [] && lines[0].Comment? { CleanStaysClean(lines[1..]); }
  }

  /** Entries stand in the order of their lines, and other lines have none. */
  lemma {:induction false} EntriesInOrder(a: seq<Line>, b: seq<Line>)
    ensures Entries(a + b) == Entries(a) + Entries(b)
    ensures forall fields :: Entries([Entry(fields)]) == [fields]
    ensures Entries([Comment]) == Entries([Malformed]) == []
  {
    if a == [] {
      assert a + b == b;
    } else {
      assert (a + b)[1..] == a[1..] + b;
      EntriesInOrder(a[1..], b);
    }
  }

  lemma {:induction false} SpoiltIs(lines: seq<Line>)
    ensures Spoilt(lines) <==> exists i | 0 <= i < |lines| :: lines[i].Malformed? && OnlyComments(lines[..i])
  {
    if lines != [] {
      SpoiltIs(lines[1..]);
      if lines[0].Comment? {
        forall i | 0 < i < |lines| ensures OnlyComments(lines[..i]) <==> OnlyComments(lines[1..][..i - 1]) {
          assert lines[..i] == [lines[0]] + lines[1..][..i - 1];
        }
        if i: nat :| i < |lines[1..]| && lines[1..][i].Malformed? && OnlyComments(lines[1..][..i]) {
          assert lines[i + 1].Malformed? && OnlyComments(lines[..i + 1]);
        }
      } else {
        assert OnlyComments(lines[..0]);
        assert forall i | 0 < i < |lines| :: lines[..i][0] == lines[0];
      }
    }
  }

  predicate OnlyComments(lines: seq<Line>) { forall l <- lines :: l.Comment? }

  /** The entries read and the rest of the file together are the file. */
  ghost predicate Shares(whole: seq<Line>, read: seq<string>, rest: seq<Line>) {
    && Entries(whole) == read + Entries(rest)
    && (read == [] && Spoilt(rest) ==> Spoilt(whole))
    && (Clean(whole) ==> Clean(rest))
  }

  /** Why the first call of a session may return no entry. */
  ghost predicate NoFirst(whole: seq<Line>, read: seq<string>) {
    Spoilt(whole) || (read == [] && Entries(whole) == [])
  }

  /** What one more line does to the list. */
  lemma ReadOne(whole: seq<Line>, read: seq<string>, rest: seq<Line>)
    requires Shares(whole, read, rest)
    ensures if Spoilt(rest) || Entries(rest) == []
            then Shares(whole, read, After(rest)) && (read == [] ==> NoFirst(whole, read))
            else Shares(whole, read + [Entries(rest)[0]], After(rest))
    ensures !Spoilt(rest) && Entries(rest) == [] ==> Entries(whole) == read
  {
    AfterTakesOne(rest);
    if Clean(whole) { CleanStaysClean(rest); }
    assert !Spoilt([]);
    hide Entries, After, Spoilt, Clean;
    var more := Entries(After(rest));
    assert [] + more == more;
    if !Spoilt(rest) && Entries(rest) != [] {
      Assoc(read, [Entries(rest)[0]], more);
    } else if !Spoilt(rest) {
      assert read + [] == read;
    }
  }

  lemma ReadPrefix(whole: seq<Line>, read: seq<string>, rest: seq<Line>)
    requires Shares(whole, read, rest)
    ensures read <= Entries(whole)
    ensures rest == [] ==> Entries(whole) == read
    ensures Clean(whole) ==> !Spoilt(whole) && !Spoilt(rest)
  {
    if Clean(whole) {
      CleanStaysClean(whole);
      CleanStaysClean(rest);
    }
  }

  lemma NoFirstKept(whole: seq<Line>, read: seq<string>, more: seq<string>, rest: seq<Line>)
    requires Shares(whole, read + more, rest) && NoFirst(whole, read)
    ensures NoFirst(whole, read + more)
  {}

  class Node {
    const entry: string
    var next: Node?

    constructor (entry: string)
      ensures this.entry == entry && next == null
    {
      this.entry := entry;
      next := null;
    }
  }

  ghost predicate Linked(list: seq<Node>, i: nat)
    requires i < |list|
    reads list`next
  {
    list[i].next == if i + 1 < |list| then list[i + 1] else null
  }

  /** The list's nodes are distinct, in use, and hold the entries read. */
  ghost predicate Holds(nodes: seq<Node>, read: seq<string>, freed: set<Node>)
    requires |nodes| == |read|
  {
    && (forall i | 0 <= i < |nodes| :: nodes[i].entry == read[i] && nodes[i] !in freed)
    && (forall i, j | 0 <= i < j < |nodes| :: nodes[i] != nodes[j])
  }

  lemma HoldsNone(freed: set<Node>)
    ensures Holds([], [], freed)
  {}

  lemma HoldsOneMore(nodes: seq<Node>, read: seq<string>, freed: set<Node>, node: Node)
    requires |nodes| == |read| && Holds(nodes, read, freed)
    requires node !in nodes && node !in freed
    ensures Holds(nodes + [node], read + [node.entry], freed)
  {}

  function Elements(list: seq<Node>): set<Node> { set n <- list }

  lemma ElementsSnoc(list: seq<Node>, i: nat)
    requires i < |list|
    ensures Elements(list[..i + 1]) == Elements(list[..i]) + {list[i]}
  {
    assert list[..i + 1] == list[..i] + [list[i]];
  }

  lemma ElementsMember(list: seq<Node>, n: Node)
    ensures n in Elements(list) <==> n in list
  {}

  class Session {
    var valid: bool
    var flag: bool            // the first call has been made
    var current: Node?
    ghost var taken: nat      // the place of `current` in the list, from one

    constructor (head: Node?)
      ensures valid && !flag && current == head && taken == 0
    {
      valid, flag, current, taken := true, false, head, 0;
    }
  }

  class Database {
    var file: Option<seq<Line>>      // the lines not read yet, while open
    var eof: bool
    var ref: int
    var head: Node?
    var tail: Node?
    ghost var whole: seq<Line>       // the file when it was opened
    ghost var read: seq<string>      // the entries in the list
    ghost var nodes: seq<Node>
    ghost var sessions: set<Session>
    ghost var freed: set<Node>

    ghost predicate Listed()
      reads this`head, this`tail, this`nodes, this`read, this`freed, nodes`next
    {
      && head == (if nodes == [] then null else nodes[0])
      && tail == (if nodes == [] then null else nodes[|nodes| - 1])
      && |read| == |nodes|
      && Holds(nodes, read, freed)
      && (forall i: nat | i < |nodes| :: Linked(nodes, i))
    }

    /**
     * A session stands on the node it returned last. One that has returned
     * none since its first call met a line that does not parse, or no entry.
     */
    ghost predicate Placed(s: Session)
      reads this`nodes, this`whole, this`read, s
    {
      && s.valid
      && s.taken <= |nodes|
      && (!s.flag || s.current == null ==> s.taken == 0)
      && (s.flag && s.current != null ==> s.taken > 0 && s.current == nodes[s.taken - 1])
      && (s.flag && s.current == null ==> NoFirst(whole, read))
    }

    ghost predicate Sound()
      reads this`file, this`eof, this`ref, this`whole, this`read, this`sessions
    {
      && ref == |sessions|
      && (file.Some? <==> sessions != {})
      && (if file.Some? then Shares(whole, read, file.value) else read == [] && !eof)
      && (eof ==> file == Some([]))
    }

    ghost predicate Valid()
      reads this`file, this`eof, this`ref, this`head, this`tail, this`whole, this`read
      reads this`nodes, this`sessions, this`freed, nodes`next, sessions
    {
      Sound() && Listed() && forall s <- sessions :: Placed(s)
    }

    constructor ()
      ensures Valid() && sessions == {} && nodes == [] && freed == {}
    {
      file, eof, ref, head, tail := None, false, 0, null, null;
      whole, read, nodes, sessions, freed := [], [], [], {}, {};
    }

    /** fopen, unless the file is open already. */
    method OpenFile(contents: Option<seq<Line>>)
      requires file == None ==> read == []
      requires file.Some? ==> Shares(whole, read, file.value)
      modifies this`file, this`whole
      ensures old(file.Some?) ==> file == old(file) && whole == old(whole)
      ensures old(file) == None ==> file == contents && (contents.Some? ==> whole == contents.value)
      ensures file.Some? ==> Shares(whole, read, file.value)
    {
      if file == None {
        file := contents;
        if contents.Some? { whole := contents.value; }
      }
    }

    /** A new handle on the open file. */
    method Register() returns (s: Session)
      requires file.Some? && Listed() && ref == |sessions| + 1 && Shares(whole, read, file.value)
      requires eof ==> file == Some([])
      requires forall x <- sessions :: Placed(x)
      modifies this`sessions
      ensures Valid()
      ensures fresh(s) && sessions == old(sessions) + {s} && s.taken == 0 && !s.flag
    {
      hide Shares, NoFirst, Holds;
      s := new Session(head);
      sessions := sessions + {s};
    }

    /** setnetconfig; `contents` is what fopen finds, if it finds the file. */
    method Open(contents: Option<seq<Line>>) returns (s: Session?)
      requires Valid()
      modifies this`file, this`ref, this`whole, this`sessions
      ensures Valid()
      ensures old(sessions) != {} ==> file == old(file) && whole == old(whole)
      ensures old(sessions) == {} ==> file == contents && (contents.Some? ==> whole == contents.value)
      ensures s == null <==> old(sessions) == {} && contents == None
      ensures s == null ==> sessions == old(sessions)
      ensures s != null ==> fresh(s) && sessions == old(sessions) + {s} && s.taken == 0 && !s.flag
    {
      hide Shares, NoFirst, Holds;
      ref := ref + 1;
      OpenFile(contents);
      if file == None {
        ref := ref - 1;
        return null;
      }
      s := Register();
    }

    /** The fgets loop: a line that is no comment, or none at the end. */
    method ReadLine() returns (line: Option<Line>)
      requires file.Some?
      modifies this`file
      ensures file == Some(After(old(file.value)))
      ensures line == None ==> old(Entries(file.value)) == [] && !Spoilt(old(file.value)) && file.value == []
      ensures line.Some? ==> !line.value.Comment? && (line.value.Malformed? <==> Spoilt(old(file.value)))
      ensures line.Some? && line.value.Entry? ==>
                old(Entries(file.value)) != [] && line.value.fields == old(Entries(file.value)[0])
    {
      while file.value != []
        invariant file.Some? && After(file.value) == After(old(file.value))
        invariant Spoilt(file.value) == Spoilt(old(file.value))
        invariant Entries(file.value) == old(Entries(file.value))
        decreases |file.value|
      {
        var first := file.value[0];
        file := Some(file.value[1..]);
        if !first.Comment? { return Some(first); }
      }
      line := None;
    }

    method Append(entry: string) returns (node: Node)
      requires Listed()
      modifies this`head, this`tail, this`nodes, this`read, nodes`next
      ensures Listed() && fresh(node) && node.entry == entry
      ensures nodes == old(nodes) + [node] && read == old(read) + [entry]
    {
      node := new Node(entry);
      ghost var was := nodes;
      if head == null {
        head, tail := node, node;
      } else {
        tail.next := node;
        tail := tail.next;
      }
      HoldsOneMore(nodes, read, freed, node);
      nodes, read := nodes + [node], read + [entry];
      forall i: nat | i < |nodes| ensures Linked(nodes, i) {
        assert i < |was| ==> old(Linked(nodes, i));
      }
    }

    /** A line that parses, or none. */
    method ReadFields() returns (fields: Option<string>)
      requires Sound() && file.Some? && !eof
      modifies this`file, this`eof
      ensures file == Some(After(old(file.value)))
      ensures fields == None ==> Sound() && (read == [] ==> NoFirst(whole, read))
                                 && (Spoilt(old(file.value)) || Entries(whole) == read)
      ensures fields.Some? ==> !eof && !Spoilt(old(file.value)) && Shares(whole, read + [fields.value], file.value)
    {
      ReadOne(whole, read, file.value);
      hide Entries, After, Spoilt, Shares, NoFirst, Holds;
      var line := ReadLine();
      eof := line == None;
      fields := if line.Some? && line.value.Entry? then Some(line.value.fields) else None;
    }

    /** A new last node, on which `s` then stands. */
    method AddEntry(s: Session, ghost others: set<Session>, fields: string) returns (node: Node)
      requires file.Some? && Shares(whole, read + [fields], file.value)
      requires Listed() && s !in others && (forall x <- others :: Placed(x))
      modifies this`head, this`tail, this`nodes, this`read, nodes`next, s`current, s`taken
      ensures Listed() && nodes == old(nodes) + [node] && read == old(read) + [fields]
      ensures s.current == node && s.taken == |nodes| && fresh(node) && node.entry == fields
      ensures forall x <- others :: Placed(x)
    {
      hide Shares, NoFirst, Holds;
      ghost var was := read;
      node := Append(fields);
      s.current, s.taken := node, |nodes|;
      if NoFirst(whole, was) { NoFirstKept(whole, was, [fields], file.value); }
      assert forall x <- others :: x.taken == old(x.taken) && x.current == old(x.current);
    }

    /** getnetconfig, from the file: the list holds no further entry for `s`. */
    method ReadEntry(s: Session) returns (r: Node?)
      requires Sound() && Listed() && !eof && s in sessions && (forall x <- sessions :: x != s ==> Placed(x))
      requires s.valid && s.flag && s.taken == if s.current == null then 0 else |nodes|
      requires if s.current == null then nodes == [] || NoFirst(whole, read) else s.current == tail
      modifies this`file, this`eof, this`head, this`tail, this`nodes, this`read, nodes`next, s`current, s`taken
      ensures Valid()
      ensures file == Some(After(old(file.value)))
      ensures r == null ==> nodes == old(nodes) && s.taken == old(s.taken)
                            && (Spoilt(old(file.value)) || Entries(whole) == read)
      ensures r != null ==> !Spoilt(old(file.value)) && nodes == old(nodes) + [r] && s.taken == |nodes| && fresh(r)
                            && |nodes| <= |Entries(whole)| && r.entry == Entries(whole)[|nodes| - 1]
    {
      hide Entries, After, Spoilt, Shares, NoFirst, Holds;
      var fields := ReadFields();
      if fields == None { return null; }
      r := AddEntry(s, sessions - {s}, fields.value);
      ReadPrefix(whole, read, file.value);
    }

    /** getnetconfig, from the list. */
    method Advance(s: Session) returns (r: Node?)
      requires Valid() && s in sessions
      modifies s
      ensures s.valid && s.flag
      ensures forall x <- sessions :: x != s ==> Placed(x)
      ensures r != null ==> Placed(s) && s.taken == old(s.taken) + 1 && s.taken <= |read| && r == nodes[s.taken - 1]
                            && r.entry == read[s.taken - 1]
      ensures r != null ==> !old(s.flag && s.taken == 0)
      ensures r == null && !old(s.flag) ==> nodes == []
      ensures r == null ==> s.taken == old(s.taken) == if s.current == null then 0 else |nodes|
      ensures r == null ==> if s.current == null then nodes == [] || NoFirst(whole, read) else s.current == tail
      ensures r == null && Entries(whole) == read ==> Placed(s)
    {
      hide Entries, Spoilt, Clean;
      r := null;
      if !s.flag {
        s.flag := true;
        s.current := head;
        if s.current != null {
          s.taken := 1;
          r := s.current;
        }
      } else if s.current != null {
        assert Linked(nodes, s.taken - 1);
        if s.current.next != null {
          s.current := s.current.next;
          s.taken := s.taken + 1;
          r := s.current;
        }
      }
    }

    /**
     * getnetconfig. The result is the list node that holds the entry.
     * Entries come in order, except to a session whose first call met a line
     * that does not parse: it goes on where the others are.
     */
    method Next(s: Session) returns (r: Node?)
      requires Valid() && s in sessions
      modifies this`file, this`eof, this`head, this`tail, this`nodes, this`read, nodes`next, s
      ensures Valid() && s.flag && file.Some?
      ensures nodes == old(nodes) || (r != null && nodes == old(nodes) + [r])
      ensures r != null ==>
                && 0 < s.taken <= |nodes| && r == nodes[s.taken - 1]
                && s.taken <= |Entries(whole)| && r.entry == Entries(whole)[s.taken - 1]
                && s.taken == 1 + old(if s.flag && s.taken == 0 then |nodes| else s.taken)
      // an entry is missed exactly when such a session comes after others
      ensures r != null ==> (s.taken == old(s.taken) + 1 <==> !(old(s.flag && s.taken == 0) && old(nodes) != []))
      // which takes a file whose first entry does not parse, and two that do
      ensures r != null && s.taken != old(s.taken) + 1 ==> Spoilt(whole) && |Entries(whole)| >= 2
      ensures r == null ==>
                && s.taken == old(s.taken)
                && (s.taken == |nodes| || Spoilt(whole))
                && (Spoilt(old(file.value)) || Entries(whole) == read)
      ensures r == null && Clean(whole) ==> s.taken == |Entries(whole)|
      ensures file.value == if r != null && nodes == old(nodes) then old(file.value) else After(old(file.value))
      ensures nodes != old(nodes) ==> fresh(r) && !Spoilt(old(file.value))
    {
      ReadPrefix(whole, read, file.value);
      assert After([]) == [];
      hide Entries, After, Spoilt, Clean, Shares, Holds, NoFirst;
      r := Advance(s);
      if r == null && !eof {
        r := ReadEntry(s);
      }
    }

    method Free(node: Node)
      requires node !in freed
      modifies this`freed
      ensures freed == old(freed) + {node}
    {
      freed := freed + {node};
    }

    /**
     * The loop of endnetconfig: it frees the nodes from the front, each once,
     * and reads no node after freeing it.
     */
    method FreeList(first: Node?, ghost list: seq<Node>, ghost entries: seq<string>)
      requires first == if list == [] then null else list[0]
      requires |list| == |entries| && Holds(list, entries, freed)
      requires forall i: nat | i < |list| :: Linked(list, i)
      modifies this`freed
      ensures freed == old(freed) + Elements(list)
    {
      var q := first;
      ghost var i := 0;
      assert Elements(list[..i]) == {};
      hide Elements;
      while q != null
        invariant 0 <= i <= |list|
        invariant q == if i == |list| then null else list[i]
        invariant freed == old(freed) + Elements(list[..i])
        decreases |list| - i
      {
        assert Linked(list, i);
        var p := q.next;
        ElementsMember(list[..i], q);
        Free(q);
        ElementsSnoc(list, i);
        q, i := p, i + 1;
      }
      assert list[..i] == list;
    }

    /** Nobody holds the list: it is freed, and the file closed. */
    method Reset()
      requires Listed() && sessions == {}
      modifies this`file, this`eof, this`ref, this`head, this`tail, this`read, this`nodes, this`freed
      ensures Valid() && file == None && nodes == []
      ensures freed == old(freed) + Elements(old(nodes))
    {
      hide Entries, Spoilt, Clean, Shares, NoFirst, Elements, Holds;
      var q := head;
      ghost var list, entries := nodes, read;
      eof, ref, head, tail, nodes, read := false, 0, null, null, [], [];
      FreeList(q, list, entries);
      HoldsNone(freed);
      file := None;
    }

    /** The handle is given back. */
    method Leave(s: Session)
      requires Valid() && s in sessions
      modifies this`ref, this`sessions, s
      ensures ref == |sessions| && sessions == old(sessions) - {s}
      ensures Listed() && forall x <- sessions :: Placed(x)
    {
      hide Entries, Spoilt, Clean, Shares, NoFirst, Holds;
      assert forall x <- sessions :: Placed(x);
      s.valid, s.flag, s.current, s.taken := false, false, null, 0;
      ref := ref - 1;
      sessions := sessions - {s};
    }

    /** endnetconfig. */
    method End(s: Session)
      requires Valid() && s in sessions
      modifies this`file, this`eof, this`ref, this`head, this`tail, this`read, this`nodes, this`sessions, this`freed, s
      ensures Valid() && sessions == old(sessions) - {s}
      ensures if sessions != {}
              then file == old(file) && nodes == old(nodes) && freed == old(freed)
              else file == None && nodes == [] && freed == old(freed) + Elements(old(nodes))
    {
      hide Entries, Spoilt, Clean, Shares, NoFirst, Elements, Holds, Linked;
      Leave(s);
      if ref <= 0 { Reset(); }
    }
  }

  lemma {:induction false} AfterIsShorter(lines: seq<Line>)
    requires lines != []
    ensures |After(lines)| < |lines|
  {
    if lines[0].Comment? && lines[1..] != [] { AfterIsShorter(lines[1..]); }
  }

  /** Calls until there is an entry: `s` has had all of the list, or none. */
  method GetEntry(db: Database, s: Session) returns (r: Node)
    requires db.Valid() && s in db.sessions && (s.taken == |db.nodes| || (s.flag && s.taken == 0))
    requires db.file.Some? && |db.nodes| < |Entries(db.whole)|
    modifies db, s, db.nodes`next
    ensures db.Valid() && db.sessions == old(db.sessions) && db.whole == old(db.whole) && db.file.Some?
    ensures fresh(r) && db.nodes == old(db.nodes) + [r] && s.taken == |db.nodes|
    ensures r.entry == Entries(db.whole)[|old(db.nodes)|]
  {
    hide Entries, After, Spoilt, Clean, Holds, NoFirst;
    var got: Node? := null;
    while got == null
      invariant db.Valid() && db.sessions == old(db.sessions) && db.whole == old(db.whole) && db.file.Some?
      invariant got == null ==> db.nodes == old(db.nodes) && (s.taken == |db.nodes| || (s.flag && s.taken == 0))
      invariant got != null ==>
                  && fresh(got) && db.nodes == old(db.nodes) + [got] && s.taken == |db.nodes|
                  && got.entry == Entries(db.whole)[|old(db.nodes)|]
      decreases if got == null then 1 + |db.file.value| else 0
    {
      ReadPrefix(db.whole, db.read, db.file.value);
      AfterIsShorter(db.file.value);
      got := db.Next(s);
    }
    r := got;
  }

  /**
   * And in every such file an entry can be missed: the first call of `a` meets
   * the line that does not parse, `b` gets the first entry, and the first entry
   * that `a` gets is the second one.
   */
  method EntryMissed(db: Database, a: Session, b: Session) returns (first: Node)
    requires db.Valid() && db.sessions == {a, b} && a != b && !a.flag && !b.flag
    requires db.file.Some? && db.file.value == db.whole && db.nodes == []
    requires Spoilt(db.whole) && |Entries(db.whole)| >= 2
    modifies db, a, b
    ensures db.whole == old(db.whole)
    ensures a.taken == 2 && first.entry == old(Entries(db.whole)[1])
  {
    hide Entries, After, Spoilt, Clean, Holds, NoFirst;
    var none := db.Next(a);
    assert none == null && a.taken == 0 && a.flag;
    var other := GetEntry(db, b);
    first := GetEntry(db, a);
  }
}
