/**
  Message: a message generated by the analysis. A message names a flow-graph
  node, a key used in comparisons, a text, a status and a severity level.
  Messages are joined when the same situation is found again, ordered for
  reporting, and compared and hashed while ignoring their status and text.

  A flow-graph node is a type parameter N compared by identity (Dafny `==`
  stands for Java's `==` on references). Its source location is a type
  parameter L; the node's getSourceLocation(), getIndex() and the location's
  compareTo, hashCode and toString are passed in as functions, and
  SourceLocation.equals is `==` on L.
*/
module Messages {
  import opened Wrappers
  import opened JavaStrings

  // ---------------------------------------------------------------------------
  // Status
  // ---------------------------------------------------------------------------

  /** Message kind. */
  datatype Status = CERTAIN | MAYBE | INFO | NONE

  /** Status.ordinal(): the position of the constant in the declaration. */
  function StatusOrdinal(s: Status): (r: nat)
    ensures r < 4
  {
    match s
    case CERTAIN => 0
    case MAYBE => 1
    case INFO => 2
    case NONE => 3
  }

  /** Distinct constants have distinct ordinals. */
  lemma {:induction false} StatusOrdinalInjective(a: Status, b: Status)
    ensures StatusOrdinal(a) == StatusOrdinal(b) <==> a == b
  {
  }

  /** Status.toString(): the presentation string of the constant. */
  function Presentation(s: Status): string {
    match s
    case CERTAIN => "definite"
    case MAYBE => "maybe"
    case INFO => "info"
    case NONE => "none"
  }

  /** Reads a presentation string back; None for any other text. */
  function ParseStatus(t: string): Option<Status> {
    if t == "definite" then Some(CERTAIN)
    else if t == "maybe" then Some(MAYBE)
    else if t == "info" then Some(INFO)
    else if t == "none" then Some(NONE)
    else None
  }

  /** The presentation strings name the constants one to one. */
  lemma {:induction false} ParsePresentation(s: Status, t: string)
    ensures ParseStatus(Presentation(s)) == Some(s)
    ensures ParseStatus(t) == Some(s) ==> Presentation(s) == t
  {
  }

  // ---------------------------------------------------------------------------
  // Severity
  // ---------------------------------------------------------------------------

  /** Severity level; the order of declaration is the sorting order. */
  datatype Severity =
    | TAJS_ERROR
    | HIGH
    | MEDIUM_IF_CERTAIN_NONE_OTHERWISE
    | MEDIUM
    | LOW
    | TAJS_META
    | TAJS_UNSOUNDNESS

  /** Severity.ordinal(). */
  function SeverityOrdinal(s: Severity): (r: nat)
    ensures r < 7
  {
    match s
    case TAJS_ERROR => 0
    case HIGH => 1
    case MEDIUM_IF_CERTAIN_NONE_OTHERWISE => 2
    case MEDIUM => 3
    case LOW => 4
    case TAJS_META => 5
    case TAJS_UNSOUNDNESS => 6
  }

  lemma {:induction false} SeverityOrdinalInjective(a: Severity, b: Severity)
    ensures SeverityOrdinal(a) == SeverityOrdinal(b) <==> a == b
  {
  }

  // ---------------------------------------------------------------------------
  // join
  // ---------------------------------------------------------------------------

  /**
    The order the status join climbs: INFO below everything, MAYBE above
    everything, CERTAIN and NONE unrelated.
  */
  predicate StatusBelow(a: Status, b: Status) {
    a == b || a == INFO || b == MAYBE
  }

  /**
    The status `join` gives a message with status `mine` when a message with
    status `other` is joined into it: the least status at or above both.
  */
  function JoinStatus(mine: Status, other: Status): (r: Status)
    ensures StatusBelow(mine, r) && StatusBelow(other, r)
    ensures forall c :: StatusBelow(mine, c) && StatusBelow(other, c) ==> StatusBelow(r, c)
  {
    if other == MAYBE || (other == CERTAIN && mine == NONE) || (other == NONE && mine == CERTAIN) then MAYBE
    else if mine == INFO then other
    else mine
  }

  /** StatusBelow is a partial order, so the join above is the least upper bound. */
  lemma {:induction false} StatusBelowPartialOrder(a: Status, b: Status, c: Status)
    ensures StatusBelow(a, a)
    ensures StatusBelow(a, b) && StatusBelow(b, a) ==> a == b
    ensures StatusBelow(a, b) && StatusBelow(b, c) ==> StatusBelow(a, c)
  {
  }

  /** MAYBE absorbs: joining a MAYBE gives MAYBE, and a MAYBE stays MAYBE. */
  lemma {:induction false} JoinMaybe(s: Status)
    ensures JoinStatus(s, MAYBE) == MAYBE && JoinStatus(MAYBE, s) == MAYBE
  {
  }

  /** CERTAIN and NONE, joined either way round, give MAYBE. */
  lemma {:induction false} JoinCertainNone()
    ensures JoinStatus(CERTAIN, NONE) == MAYBE && JoinStatus(NONE, CERTAIN) == MAYBE
  {
  }

  /** INFO is the identity: an INFO receiver adopts the other status, an INFO other changes nothing. */
  lemma {:induction false} JoinInfo(s: Status)
    ensures JoinStatus(INFO, s) == s && JoinStatus(s, INFO) == s
  {
  }

  /** The status join is a semilattice: commutative, associative and idempotent. */
  lemma {:induction false} JoinSemilattice(a: Status, b: Status, c: Status)
    ensures JoinStatus(a, b) == JoinStatus(b, a)
    ensures JoinStatus(JoinStatus(a, b), c) == JoinStatus(a, JoinStatus(b, c))
    ensures JoinStatus(a, a) == a
  {
    StatusBelowPartialOrder(JoinStatus(a, b), JoinStatus(b, a), c);
    StatusBelowPartialOrder(JoinStatus(JoinStatus(a, b), c), JoinStatus(a, JoinStatus(b, c)), c);
  }

  /**
    The text `join` keeps: the longer of the two in String.length(), which
    counts UTF-16 code units; the receiver's own on a tie.
  */
  function LongerText(mine: string, other: string): (r: string)
    ensures r == mine || r == other
    ensures Length(r) >= Length(mine) && Length(r) >= Length(other)
    ensures Length(r) == Length(mine) ==> r == mine
  {
    if Length(other) > Length(mine) then other else mine
  }

  /**
    Length is String.length(): two characters outside the Basic Multilingual
    Plane are four code units, so they outweigh three ASCII letters.
  */
  lemma {:induction false} LongerTextCountsCodeUnits()
    ensures LongerText("abc", "\U{1F600}\U{1F600}") == "\U{1F600}\U{1F600}"
  {
    assert Utf16("abc") == ['a' as int] + Utf16("bc");
    assert Utf16("bc") == ['b' as int] + Utf16("c");
    assert Utf16("c") == ['c' as int] + Utf16("");
    var e := "\U{1F600}\U{1F600}";
    assert Utf16(e) == CodeUnits(e[0]) + Utf16(e[1..]);
    assert Utf16(e[1..]) == CodeUnits(e[1]) + Utf16(e[2..]);
  }

  // ---------------------------------------------------------------------------
  // The message object
  // ---------------------------------------------------------------------------

  /** The fields of a message at one moment: what equals, hashCode, compareTo and toString read. */
  datatype MessageFields<N> = MessageFields(
    node: N, msg: string, key: string, status: Status, severity: Severity, useSourceLocation: bool)

  class Message<N> {
    var node: N
    var msg: string
    var key: string
    var status: Status
    var severity: Severity
    /** When set, equals and hashCode use the node's source location instead of the node. */
    var useSourceLocation: bool

    /** Message(node, status, key, msg, severity, use_source_location). */
    constructor (node: N, status: Status, key: string, msg: string, severity: Severity, useSourceLocation: bool)
      ensures Fields() == MessageFields(node, msg, key, status, severity, useSourceLocation)
    {
      this.node := node;
      this.key := key;
      this.msg := msg;
      this.status := status;
      this.severity := severity;
      this.useSourceLocation := useSourceLocation;
    }

    /** Message(node, status, key, msg, severity): compares by node identity. */
    constructor ByNode(node: N, status: Status, key: string, msg: string, severity: Severity)
      ensures Fields() == MessageFields(node, msg, key, status, severity, false)
    {
      this.node := node;
      this.key := key;
      this.msg := msg;
      this.status := status;
      this.severity := severity;
      this.useSourceLocation := false;
    }

    /** Message(node, status, msg, severity, use_source_location): the text is also the key. */
    constructor WithTextAsKey(node: N, status: Status, msg: string, severity: Severity, useSourceLocation: bool)
      ensures Fields() == MessageFields(node, msg, msg, status, severity, useSourceLocation)
    {
      this.node := node;
      this.key := msg;
      this.msg := msg;
      this.status := status;
      this.severity := severity;
      this.useSourceLocation := useSourceLocation;
    }

    function Fields(): MessageFields<N>
      reads this
    {
      MessageFields(node, msg, key, status, severity, useSourceLocation)
    }

    /**
      join: joins `other` into this message. The status becomes the join of
      the two statuses and the text the longer of the two texts; nothing else
      changes. `other` may be this message itself.
    */
    method Join(other: Message<N>)
      modifies this
      ensures status == JoinStatus(old(status), old(other.status))
      ensures msg == LongerText(old(msg), old(other.msg))
      ensures node == old(node) && key == old(key) && severity == old(severity)
      ensures useSourceLocation == old(useSourceLocation)
    {
      var otherStatus := other.status;
      if otherStatus == MAYBE || (otherStatus == CERTAIN && status == NONE) || (otherStatus == NONE && status == CERTAIN) {
        status := MAYBE;
      } else if status == INFO {
        status := otherStatus;
      }
      var otherMsg := other.msg;
      if Length(otherMsg) > Length(msg) {
        msg := otherMsg;
      }
    }
  }

  // ---------------------------------------------------------------------------
  // equals and hashCode
  // ---------------------------------------------------------------------------

  /** What equals compares instead of the status and text: the node, or its source location. */
  predicate SameSite<N(==), L(==)>(sourceLocation: N -> L, m: MessageFields<N>, o: MessageFields<N>) {
    if m.useSourceLocation then sourceLocation(m.node) == sourceLocation(o.node) else m.node == o.node
  }

  /**
    equals, as written: false for null; otherwise the node (or, when the
    receiver's flag is set, its source location), the key and the severity
    must agree. Only the receiver's use_source_location is consulted.
  */
  function Equals<N(==), L(==)>(sourceLocation: N -> L, m: MessageFields<N>, obj: Option<MessageFields<N>>): (r: bool)
    ensures obj.None? ==> !r
    ensures obj == Some(m) ==> r
  {
    match obj
    case None => false
    case Some(o) => SameSite(sourceLocation, m, o) && m.key == o.key && m.severity == o.severity
  }

  /** equals ignores the status and the text of both messages. */
  lemma {:induction false} EqualsIgnoresStatusAndText<N, L>(sourceLocation: N -> L,
      m: MessageFields<N>, o: MessageFields<N>, s1: Status, t1: string, s2: Status, t2: string)
    ensures Equals(sourceLocation, m.(status := s1, msg := t1), Some(o.(status := s2, msg := t2)))
         == Equals(sourceLocation, m, Some(o))
  {
  }

  /**
    Java's int arithmetic: the value of x modulo 2^32, read as a two's
    complement 32-bit integer.
  */
  function Int32(x: int): (r: int)
    ensures -0x8000_0000 <= r < 0x8000_0000
    ensures (r - x) % 0x1_0000_0000 == 0
  {
    var m := x % 0x1_0000_0000;
    if m >= 0x8000_0000 then m - 0x1_0000_0000 else m
  }

  /**
    hashCode: seven times the hash of the node (its index, or the hash of its
    source location when the flag is set) plus five times the hash of the
    key, in 32-bit int arithmetic. The status and the text do not count.
  */
  function MessageHashCode<N, L>(sourceLocation: N -> L, hashLocation: L -> int, index: N -> int, m: MessageFields<N>): (r: int)
    ensures -0x8000_0000 <= r < 0x8000_0000
  {
    var site := if m.useSourceLocation then hashLocation(sourceLocation(m.node)) else index(m.node);
    Int32(site * 7 + HashCode(m.key) * 5)
  }

  /**
    Messages that equal each other and agree on use_source_location have the
    same hash code. Without the agreement this fails: see EqualsNotSymmetric.
  */
  lemma {:induction false} EqualsHashConsistent<N, L>(sourceLocation: N -> L, hashLocation: L -> int,
      index: N -> int, m: MessageFields<N>, o: MessageFields<N>)
    requires m.useSourceLocation == o.useSourceLocation
    requires Equals(sourceLocation, m, Some(o))
    ensures MessageHashCode(sourceLocation, hashLocation, index, m) == MessageHashCode(sourceLocation, hashLocation, index, o)
  {
  }

  /**
    equals as written is not symmetric: a message that compares by source
    location equals a message on another node at that location, which does not
    equal it back, and the two hash differently.
  */
  lemma {:induction false} EqualsNotSymmetric()
    ensures var loc := (n: int) => 0;
      var a := MessageFields(1, "", "k", INFO, HIGH, true);
      var b := MessageFields(2, "", "k", INFO, HIGH, false);
      && Equals(loc, a, Some(b))
      && !Equals(loc, b, Some(a))
      && MessageHashCode(loc, (l: int) => 0, (n: int) => n, a) != MessageHashCode(loc, (l: int) => 0, (n: int) => n, b)
  {
    var loc := (n: int) => 0;
    var b := MessageFields(2, "", "k", INFO, HIGH, false);
    assert HashCode("k") == 'k' as int by {
      assert Utf16("k") == ['k' as int] + Utf16("");
      assert Utf16("k")[..0] == [];
    }
    assert MessageHashCode(loc, (l: int) => 0, (n: int) => n, b) == Int32(14 + ('k' as int) * 5);
  }

  /**
    equals as evidently intended: messages that compare by different things
    are unequal; otherwise as equals above.
  */
  function EqualsConsistent<N(==), L(==)>(sourceLocation: N -> L, m: MessageFields<N>, obj: Option<MessageFields<N>>): (r: bool)
    ensures r ==> Equals(sourceLocation, m, obj)
    ensures obj.Some? && obj.value.useSourceLocation == m.useSourceLocation ==> (r <==> Equals(sourceLocation, m, obj))
  {
    match obj
    case None => false
    case Some(o) => m.useSourceLocation == o.useSourceLocation && Equals(sourceLocation, m, obj)
  }

  /** The corrected equals is an equivalence relation and agrees with hashCode. */
  lemma {:induction false} EqualsConsistentEquivalence<N, L>(sourceLocation: N -> L, hashLocation: L -> int,
      index: N -> int, a: MessageFields<N>, b: MessageFields<N>, c: MessageFields<N>)
    ensures EqualsConsistent(sourceLocation, a, Some(a))
    ensures EqualsConsistent(sourceLocation, a, Some(b)) ==> EqualsConsistent(sourceLocation, b, Some(a))
    ensures EqualsConsistent(sourceLocation, a, Some(b)) && EqualsConsistent(sourceLocation, b, Some(c))
         ==> EqualsConsistent(sourceLocation, a, Some(c))
    ensures EqualsConsistent(sourceLocation, a, Some(b))
         ==> MessageHashCode(sourceLocation, hashLocation, index, a) == MessageHashCode(sourceLocation, hashLocation, index, b)
  {
    if EqualsConsistent(sourceLocation, a, Some(b)) {
      EqualsHashConsistent(sourceLocation, hashLocation, index, a, b);
    }
  }

  // ---------------------------------------------------------------------------
  // compareTo
  // ---------------------------------------------------------------------------

  /** The sign of a comparison result. */
  function Sign(x: int): int {
    if x < 0 then -1 else if x > 0 then 1 else 0
  }

  /** SourceLocation.compareTo returns zero exactly for equal locations. */
  ghost predicate ZeroOnlyWhenEqual<L(!new)>(compareLocation: (L, L) -> int) {
    forall x, y :: compareLocation(x, y) == 0 <==> x == y
  }

  /** SourceLocation.compareTo changes sign when its arguments are swapped. */
  ghost predicate SignAntisymmetric<L(!new)>(compareLocation: (L, L) -> int) {
    forall x, y :: Sign(compareLocation(y, x)) == -Sign(compareLocation(x, y))
  }

  /**
    compareTo: by status ordinal, then severity ordinal, then source location,
    then key, each difference deciding when it is not zero.
  */
  function CompareMessages<N, L>(sourceLocation: N -> L, compareLocation: (L, L) -> int,
                                 m: MessageFields<N>, e: MessageFields<N>): int {
    var c := StatusOrdinal(m.status) - StatusOrdinal(e.status);
    if c != 0 then c
    else
      var c := SeverityOrdinal(m.severity) - SeverityOrdinal(e.severity);
      if c != 0 then c
      else
        var c := compareLocation(sourceLocation(m.node), sourceLocation(e.node));
        if c != 0 then c
        else CompareTo(m.key, e.key)
  }

  /** compareTo is zero exactly when status, severity, source location and key all agree. */
  lemma {:induction false} CompareMessagesZero<N, L(!new)>(sourceLocation: N -> L, compareLocation: (L, L) -> int,
      m: MessageFields<N>, e: MessageFields<N>)
    requires ZeroOnlyWhenEqual(compareLocation)
    ensures CompareMessages(sourceLocation, compareLocation, m, e) == 0
        <==> && m.status == e.status
             && m.severity == e.severity
             && sourceLocation(m.node) == sourceLocation(e.node)
             && m.key == e.key
  {
    StatusOrdinalInjective(m.status, e.status);
    SeverityOrdinalInjective(m.severity, e.severity);
  }

  /** Swapping the messages flips the sign of compareTo. */
  lemma {:induction false} CompareMessagesAntisymmetric<N, L(!new)>(sourceLocation: N -> L, compareLocation: (L, L) -> int,
      m: MessageFields<N>, e: MessageFields<N>)
    requires SignAntisymmetric(compareLocation)
    ensures Sign(CompareMessages(sourceLocation, compareLocation, e, m))
         == -Sign(CompareMessages(sourceLocation, compareLocation, m, e))
  {
    CompareToAntisymmetric(m.key, e.key);
  }

  /** The status decides first: a message of a lower status ordinal sorts first. */
  lemma {:induction false} CompareMessagesByStatus<N, L>(sourceLocation: N -> L, compareLocation: (L, L) -> int,
      m: MessageFields<N>, e: MessageFields<N>)
    requires StatusOrdinal(m.status) < StatusOrdinal(e.status)
    ensures CompareMessages(sourceLocation, compareLocation, m, e) < 0
  {
  }

  // ---------------------------------------------------------------------------
  // toString
  // ---------------------------------------------------------------------------

  /** The text in brackets: "unsound" for TAJS_UNSOUNDNESS, the status presentation otherwise. */
  function BracketText(severity: Severity, status: Status): (b: string)
    ensures ']' !in b
  {
    if severity == TAJS_UNSOUNDNESS then "unsound" else Presentation(status)
  }

  /** toString: "<source location>: [<bracket text>] <text>". */
  function MessageToString<N, L>(sourceLocation: N -> L, showLocation: L -> string, m: MessageFields<N>): string {
    showLocation(sourceLocation(m.node)) + ": [" + BracketText(m.severity, m.status) + "] " + m.msg
  }

  /** Reads a bracket text back: Some(None) for "unsound", Some(Some(s)) for a status. */
  function ParseBracket(b: string): Option<Option<Status>> {
    if b == "unsound" then Some(None)
    else match ParseStatus(b)
      case Some(s) => Some(Some(s))
      case None => None
  }

  /**
    Reads back the output of toString, given the location's text: the bracket
    (None for "unsound") and the message text.
  */
  function ParseMessageText(locationText: string, s: string): Option<(Option<Status>, string)> {
    var prefix := locationText + ": [";
    if |prefix| <= |s| && s[..|prefix|] == prefix then
      match Cut(s[|prefix|..], "] ")
      case Some((b, text)) =>
        (match ParseBracket(b)
         case Some(st) => Some((st, text))
         case None => None)
      case None => None
    else None
  }

  /**
    toString loses nothing but what the bracket hides: it reads back as the
    status (or "unsound" for TAJS_UNSOUNDNESS) and the message text.
  */
  lemma {:induction false} ParseMessageToString<N, L>(sourceLocation: N -> L, showLocation: L -> string, m: MessageFields<N>)
    ensures ParseMessageText(showLocation(sourceLocation(m.node)), MessageToString(sourceLocation, showLocation, m))
         == Some((if m.severity == TAJS_UNSOUNDNESS then None else Some(m.status), m.msg))
  {
    var prefix := showLocation(sourceLocation(m.node)) + ": [";
    var b := BracketText(m.severity, m.status);
    var s := MessageToString(sourceLocation, showLocation, m);
    assert s == prefix + (b + "] " + m.msg);
    assert s[..|prefix|] == prefix && s[|prefix|..] == b + "] " + m.msg;
    CutAt(b, "] ", m.msg);
    ParsePresentation(m.status, b);
  }
}
