/** One client's subscription as the broker records it: which client, which
    topic filter, at which maximum QoS, and whether it is active. Equality
    and hashing look only at the client and the filter, so a resubscribe at
    another QoS is the same entry. */
module Subscriptions {
  import opened Wrappers
  import opened MqttQos
  import opened JavaInt
  import JavaString

  /** A parsed topic filter. Topic.java is not part of this model: only its
      equality is used, and it is taken to be value equality. */
  type Topic(==)

  /** The four final fields. `None` stands for a null reference: the source
      stores whatever it is given and null-checks the client id and the
      filter when comparing and hashing. */
  datatype Subscription = Subscription(
    requestedQos: Option<QoS>,   // maximum QoS acceptable; None when undefined
    clientId: Option<string>,
    topicFilter: Option<Topic>,
    active: bool)

  /** The identity of an entry: the pair that equality and hashing use. */
  function Key(s: Subscription): (Option<string>, Option<Topic>)
  {
    (s.clientId, s.topicFilter)
  }

  /** A `NullPointerException` thrown by an unguarded dereference. */
  datatype Fault = NullPointer

  // ---------------------------------------------------------------------
  // Constructors

  /** `new Subscription(clientId, topicFilter, requestedQos)`. */
  function New(clientId: Option<string>, topicFilter: Option<Topic>, requestedQos: Option<QoS>): (s: Subscription)
    ensures s.clientId == clientId && s.topicFilter == topicFilter
    ensures s.requestedQos == requestedQos
    ensures s.active
  {
    Subscription(requestedQos, clientId, topicFilter, true)
  }

  /** `new Subscription(clientId, topicFilter)`: maximum QoS left undefined. */
  function NewUndefinedQos(clientId: Option<string>, topicFilter: Option<Topic>): (s: Subscription)
    ensures s.clientId == clientId && s.topicFilter == topicFilter
    ensures s.requestedQos.None?
    ensures s.active
  {
    Subscription(None, clientId, topicFilter, true)
  }

  /** `new Subscription(orig)`: all four fields taken over, `active` included. */
  function CopyOf(orig: Subscription): (s: Subscription)
    ensures s.clientId == orig.clientId && s.topicFilter == orig.topicFilter
    ensures s.requestedQos == orig.requestedQos
    ensures s.active == orig.active
  {
    Subscription(orig.requestedQos, orig.clientId, orig.topicFilter, orig.active)
  }

  /** `new Subscription(orig)` on every input: a null `orig` is dereferenced
      and throws; otherwise the result is the copy. */
  function CopyOfOrFault(orig: Option<Subscription>): (r: Result<Subscription, Fault>)
    ensures r.Failure? <==> orig.None?
    ensures r.Success? ==> r.value == orig.value
  {
    match orig
    case None => Failure(NullPointer)
    case Some(o) => Success(CopyOf(o))
  }

  /** The two-argument constructor is the three-argument one with no QoS. */
  lemma NewUndefinedQosIsNewWithoutQos(clientId: Option<string>, topicFilter: Option<Topic>)
    ensures NewUndefinedQos(clientId, topicFilter) == New(clientId, topicFilter, None)
  {
  }

  // ---------------------------------------------------------------------
  // QoS ordering

  /** `qosLessThan`: this subscription asks for a strictly weaker guarantee
      than `sub`. Both levels must be defined; the source dereferences them
      without a check. */
  function QosLessThan(self: Subscription, sub: Subscription): (r: bool)
    requires self.requestedQos.Some? && sub.requestedQos.Some?
    ensures r <==> Weaker(self.requestedQos.value, sub.requestedQos.value)
  {
    Value(self.requestedQos.value) < Value(sub.requestedQos.value)
  }

  /** `qosLessThan` on every input, faults included: `sub` may be null, and
      the receiver's level, the argument and the argument's level are
      dereferenced in that order without a check. */
  function QosLessThanOrFault(self: Subscription, sub: Option<Subscription>): (r: Result<bool, Fault>)
    ensures r.Failure? <==> self.requestedQos.None? || sub.None? || sub.value.requestedQos.None?
    ensures r.Success? ==> r.value == QosLessThan(self, sub.value)
  {
    match self.requestedQos
    case None => Failure(NullPointer)
    case Some(mine) =>
      match sub
      case None => Failure(NullPointer)
      case Some(other) =>
        match other.requestedQos
        case None => Failure(NullPointer)
        case Some(theirs) => Success(Value(mine) < Value(theirs))
  }

  /** `qosLessThan` is a strict order on subscriptions with defined levels:
      irreflexive, transitive, and for any two exactly one of less, greater
      or same level holds. */
  lemma QosLessThanIsStrictOrder(a: Subscription, b: Subscription, c: Subscription)
    requires a.requestedQos.Some? && b.requestedQos.Some? && c.requestedQos.Some?
    ensures !QosLessThan(a, a)
    ensures QosLessThan(a, b) && QosLessThan(b, c) ==> QosLessThan(a, c)
    ensures QosLessThan(a, b) || QosLessThan(b, a) || a.requestedQos == b.requestedQos
    ensures !(QosLessThan(a, b) && QosLessThan(b, a))
    ensures !(QosLessThan(a, b) && a.requestedQos == b.requestedQos)
  {
    WeakerIsStrictTotalOrder(a.requestedQos.value, b.requestedQos.value, c.requestedQos.value);
  }

  // ---------------------------------------------------------------------
  // Equality

  /** The field comparison of `equals` once `that` is known to be another
      Subscription: a null field is equal only to null, and a non-null one
      is compared with `equals`, which is false against null. */
  function SameEntry(a: Subscription, b: Subscription): (r: bool)
    ensures r <==> Key(a) == Key(b)
  {
    var clientIdDiffers :=
      match a.clientId
      case Some(id) => b.clientId != Some(id)
      case None => b.clientId.Some?;
    if clientIdDiffers then false
    else
      match a.topicFilter
      case Some(filter) => b.topicFilter == Some(filter)
      case None => b.topicFilter.None?
  }

  /** Live objects, by address. Only Subscription objects are stored. */
  type Heap = seq<Subscription>

  /** The argument of `equals(Object)`: null, a reference to a Subscription,
      or an object of some other class. */
  datatype Obj = Null | Ref(addr: nat) | Foreign

  predicate Allocated(h: Heap, o: Obj)
  {
    o.Ref? ==> o.addr < |h|
  }

  /** `equals(o)` called on the Subscription at address `self`. */
  function Equals(h: Heap, self: nat, o: Obj): (r: bool)
    requires self < |h| && Allocated(h, o)
    ensures r <==> o.Ref? && Key(h[self]) == Key(h[o.addr])
  {
    if o == Ref(self) then true
    else if o.Null? || o.Foreign? then false
    else SameEntry(h[self], h[o.addr])
  }

  /** `equals` is an equivalence relation on allocated subscriptions. */
  lemma EqualsIsEquivalence(h: Heap, i: nat, j: nat, k: nat)
    requires i < |h| && j < |h| && k < |h|
    ensures Equals(h, i, Ref(i))
    ensures Equals(h, i, Ref(j)) <==> Equals(h, j, Ref(i))
    ensures Equals(h, i, Ref(j)) && Equals(h, j, Ref(k)) ==> Equals(h, i, Ref(k))
  {
  }

  /** Null and objects of other classes are never equal to a Subscription. */
  lemma EqualsRejectsNullAndForeign(h: Heap, i: nat)
    requires i < |h|
    ensures !Equals(h, i, Null)
    ensures !Equals(h, i, Foreign)
  {
  }

  /** Replacing any stored subscription by one that differs only in its QoS
      and `active` flag leaves every `equals` answer unchanged. */
  lemma EqualsIgnoresQosAndActive(h: Heap, self: nat, o: Obj, j: nat, qos: Option<QoS>, active: bool)
    requires self < |h| && Allocated(h, o) && j < |h|
    ensures Equals(h[j := h[j].(requestedQos := qos, active := active)], self, o) == Equals(h, self, o)
  {
  }

  /** Subscribing again to the same filter, at any level, yields an entry
      equal to the first one. */
  lemma ResubscribeIsSameEntry(clientId: Option<string>, topicFilter: Option<Topic>, q1: Option<QoS>, q2: Option<QoS>)
    ensures SameEntry(New(clientId, topicFilter, q1), New(clientId, topicFilter, q2))
    ensures SameEntry(New(clientId, topicFilter, q1), NewUndefinedQos(clientId, topicFilter))
  {
  }

  /** A copy allocated next to its original is a distinct object that
      `equals` the original, in both directions. */
  lemma CopyEqualsOriginal(h: Heap, i: nat)
    requires i < |h|
    ensures var h' := h + [CopyOf(h[i])];
      && Ref(|h|) != Ref(i)
      && h'[|h|] == h[i]
      && Equals(h', i, Ref(|h|))
      && Equals(h', |h|, Ref(i))
  {
  }

  // ---------------------------------------------------------------------
  // Hashing

  /** The hash of a possibly-null field: the field's own hash, or 0 for null. */
  function FieldHash<T>(field: Option<T>, hash: T -> Int32): Int32
  {
    match field
    case Some(v) => hash(v)
    case None => 0
  }

  /** `hashCode()`, for any `String.hashCode` and `Topic.hashCode` (both are
      outside this model). Each Java operation wraps to 32 bits. */
  function HashCode(s: Subscription, stringHash: string -> Int32, topicHash: Topic -> Int32): (r: Int32)
    ensures (r - (31 * FieldHash(s.clientId, stringHash) + FieldHash(s.topicFilter, topicHash))) % Modulus == 0
  {
    var result: Int32 := FieldHash(s.clientId, stringHash);
    var product: Int32 := Wrap(31 * result);
    Wrap(product + FieldHash(s.topicFilter, topicHash))
  }

  /** The two intermediate wraps come to one wrap of the exact value
      `31 * h(clientId) + h(topicFilter)`. */
  lemma {:induction false} HashCodeIsWrappedSum(s: Subscription, stringHash: string -> Int32, topicHash: Topic -> Int32)
    ensures HashCode(s, stringHash, topicHash)
         == Wrap(31 * FieldHash(s.clientId, stringHash) + FieldHash(s.topicFilter, topicHash))
  {
    WrapAbsorbs(31 * FieldHash(s.clientId, stringHash), FieldHash(s.topicFilter, topicHash));
  }

  /** A subscription with both fields null hashes to 0. */
  lemma HashCodeOfNullFields(s: Subscription, stringHash: string -> Int32, topicHash: Topic -> Int32)
    requires s.clientId.None? && s.topicFilter.None?
    ensures HashCode(s, stringHash, topicHash) == 0
  {
  }

  /** The hash depends on the key alone. */
  lemma HashCodeDependsOnlyOnKey(a: Subscription, b: Subscription, stringHash: string -> Int32, topicHash: Topic -> Int32)
    requires Key(a) == Key(b)
    ensures HashCode(a, stringHash, topicHash) == HashCode(b, stringHash, topicHash)
  {
  }

  /** Objects that are `equals` have equal hash codes, whatever hashes the
      String and Topic classes use. */
  lemma HashCodeConsistentWithEquals(h: Heap, self: nat, o: Obj, stringHash: string -> Int32, topicHash: Topic -> Int32)
    requires self < |h| && Allocated(h, o)
    requires Equals(h, self, o)
    ensures HashCode(h[self], stringHash, topicHash) == HashCode(h[o.addr], stringHash, topicHash)
  {
    HashCodeDependsOnlyOnKey(h[self], h[o.addr], stringHash, topicHash);
  }

  /** With Java's own `String.hashCode`, the hash is the wrapped exact value
      `31 * p(clientId) + h(topicFilter)`, where `p` is the documented
      polynomial of the client id's UTF-16 code units. */
  lemma {:induction false} HashCodeWithJavaStrings(s: Subscription, topicHash: Topic -> Int32)
    requires s.clientId.Some?
    ensures HashCode(s, JavaString.StringHash, topicHash)
         == Wrap(31 * JavaString.Polynomial(JavaString.Utf16(s.clientId.value)) + FieldHash(s.topicFilter, topicHash))
  {
    var p := JavaString.Polynomial(JavaString.Utf16(s.clientId.value));
    var t := FieldHash(s.topicFilter, topicHash);
    JavaString.StringHashIsWrappedPolynomial(s.clientId.value);
    HashCodeIsWrappedSum(s, JavaString.StringHash, topicHash);
    WrapAbsorbs(31 * Wrap(p), t);
    WrapMul31(p);
    WrapAbsorbs(31 * p, t);
  }
}
