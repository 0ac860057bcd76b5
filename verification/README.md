# Moquette subscription record

A model, in Dafny, of `Subscription`, the MQTT broker's record of one
client's interest in one topic filter: the client id, the parsed topic
filter, the maximum QoS the client asked for (level 0, 1 or 2 of section 4.3
of MQTT 3.1.1, or undefined) and an `active` flag. The record is immutable.
Its equality and hash deliberately look only at the pair (client id, topic
filter), so subscribing again to the same filter at another level yields the
same entry in any set or map keyed by subscriptions.

Files:

- `wrappers.dfy` (`Wrappers`): `Option` for a Java reference that may be
  null, `Result` for a call that may throw.
- `java_int.dfy` (`JavaInt`): Java's 32-bit `int` and its wrap-around on
  overflow.
- `java_string.dfy` (`JavaString`): `String.hashCode` as the Java API
  documents it, over the string's UTF-16 code units.
- `qos.dfy` (`MqttQos`): the three QoS levels, their numeric value, and an
  independent pair-by-pair definition of "weaker guarantee".
- `subscription.dfy` (`Subscriptions`): the record, its three constructors,
  `qosLessThan`, `equals` and `hashCode`, with their laws.

The four fields are the datatype's destructors, so the getters
`getClientId`, `getRequestedQos`, `getTopicFilter` and `isActive`
(`Subscription.java` lines 61-75) are `s.clientId`, `s.requestedQos`,
`s.topicFilter` and `s.active`.

`equals(Object)` is modelled over a heap of subscriptions indexed by address.
The argument is null, a reference to a subscription, or an object of another
class. This keeps the `this == o` shortcut as a real branch, and
`Subscriptions.Equals` shows that the shortcut agrees with the field
comparison.

`String.hashCode` and `Topic.hashCode` are foreign code, so they are
parameters of `Subscriptions.HashCode`. Every hash law here holds for every
choice of them. `JavaString.StringHash` is the documented String hash, so
the client id's part of the hash can also be stated exactly. The overflow of `31 * result + ...` is written out with
`JavaInt.Wrap`.

Two behaviours of the code are worth stating plainly:

- The constructors validate nothing: a null or empty client id and a null
  filter are stored as given (`Subscription.java` lines 34-59).
- `qosLessThan` throws a `NullPointerException` when either level is
  undefined or the argument is null (line 78). `Subscriptions.QosLessThan`
  states the defined levels as a `requires`;
  `Subscriptions.QosLessThanOrFault` models the fault as written. The copy
  constructor likewise throws on a null argument (line 42), which
  `Subscriptions.CopyOfOrFault` models.

## Model

| member | source | states |
|---|---|---|
| `Subscriptions.New` | broker/src/main/java/io/moquette/broker/subscriptions/Subscription.java:34-39 | the three-argument constructor keeps client id, filter and QoS as given, null included, and starts active |
| `Subscriptions.NewUndefinedQos` | broker/src/main/java/io/moquette/broker/subscriptions/Subscription.java:48-59 | the two-argument constructor keeps client id and filter, leaves the QoS undefined, and starts active |
| `Subscriptions.NewUndefinedQosIsNewWithoutQos` | broker/src/main/java/io/moquette/broker/subscriptions/Subscription.java:54-59 | the two-argument constructor is the three-argument one given a null QoS |
| `Subscriptions.CopyOf` | broker/src/main/java/io/moquette/broker/subscriptions/Subscription.java:41-46 | the copy constructor takes over all four fields, `active` included |
| `Subscriptions.CopyOfOrFault` | broker/src/main/java/io/moquette/broker/subscriptions/Subscription.java:41-46 | the copy constructor throws exactly when its argument is null, and otherwise yields a value equal to the original |
| `Subscriptions.CopyEqualsOriginal` | broker/src/main/java/io/moquette/broker/subscriptions/Subscription.java:41-46 | a copy is a distinct object with the same value, and it `equals` the original in both directions |
| `Subscriptions.QosLessThan` | broker/src/main/java/io/moquette/broker/subscriptions/Subscription.java:77-79 | defined only when both levels are defined; true exactly when this subscription's level is a strictly weaker guarantee than the other's |
| `Subscriptions.QosLessThanOrFault` | broker/src/main/java/io/moquette/broker/subscriptions/Subscription.java:77-79 | the comparison throws exactly when the receiver's level is undefined, the argument is null, or the argument's level is undefined, and otherwise answers as `QosLessThan` |
| `Subscriptions.QosLessThanIsStrictOrder` | broker/src/main/java/io/moquette/broker/subscriptions/Subscription.java:77-79 | on defined levels the comparison is irreflexive, asymmetric and transitive, and exactly one of less, greater or same level holds |
| `MqttQos.Value` | broker/src/main/java/io/moquette/broker/subscriptions/Subscription.java:78 | the numeric level compared by `qosLessThan` is 0, 1 or 2 |
| `MqttQos.ValueOrdersLevels` | broker/src/main/java/io/moquette/broker/subscriptions/Subscription.java:78 | comparing numeric levels is the same as comparing delivery guarantees |
| `MqttQos.ValueInjective` | broker/src/main/java/io/moquette/broker/subscriptions/Subscription.java:78 | two levels have the same number only if they are the same level |
| `MqttQos.WeakerIsStrictTotalOrder` | broker/src/main/java/io/moquette/broker/subscriptions/Subscription.java:77-79 | the guarantee order on levels is a strict total order |
| `Subscriptions.SameEntry` | broker/src/main/java/io/moquette/broker/subscriptions/Subscription.java:88-92 | the null-aware field comparison holds exactly when client id and filter are both equal, null equal only to null |
| `Subscriptions.Equals` | broker/src/main/java/io/moquette/broker/subscriptions/Subscription.java:81-93 | `equals` is true exactly when the argument is a subscription with the same client id and filter; QoS and `active` play no part, and the identity shortcut agrees with the field comparison |
| `Subscriptions.EqualsIsEquivalence` | broker/src/main/java/io/moquette/broker/subscriptions/Subscription.java:82-93 | `equals` is reflexive, symmetric and transitive |
| `Subscriptions.EqualsRejectsNullAndForeign` | broker/src/main/java/io/moquette/broker/subscriptions/Subscription.java:85-86 | `equals` is false for null and for an object of another class |
| `Subscriptions.EqualsIgnoresQosAndActive` | broker/src/main/java/io/moquette/broker/subscriptions/Subscription.java:90-92 | changing any subscription's QoS or `active` flag changes no `equals` answer |
| `Subscriptions.ResubscribeIsSameEntry` | broker/src/main/java/io/moquette/broker/subscriptions/Subscription.java:82-93 | subscribing again to the same filter, at any level or none, gives an entry equal to the first |
| `Subscriptions.HashCode` | broker/src/main/java/io/moquette/broker/subscriptions/Subscription.java:95-100 | the hash is congruent modulo 2^32 to `31 * h(clientId) + h(topicFilter)`, with null hashing to 0 |
| `Subscriptions.HashCodeIsWrappedSum` | broker/src/main/java/io/moquette/broker/subscriptions/Subscription.java:96-99 | the two overflowing Java operations give the 32-bit wrap of the exact `31 * h(clientId) + h(topicFilter)` |
| `Subscriptions.HashCodeOfNullFields` | broker/src/main/java/io/moquette/broker/subscriptions/Subscription.java:97-98 | a subscription whose client id and filter are both null hashes to 0 |
| `Subscriptions.HashCodeDependsOnlyOnKey` | broker/src/main/java/io/moquette/broker/subscriptions/Subscription.java:96-100 | subscriptions with the same client id and filter hash alike, whatever their QoS and `active` flag |
| `Subscriptions.HashCodeConsistentWithEquals` | broker/src/main/java/io/moquette/broker/subscriptions/Subscription.java:82-100 | objects that are `equals` have equal hash codes, for any String and Topic hash |
| `JavaInt.Wrap` | broker/src/main/java/io/moquette/broker/subscriptions/Subscription.java:98 | a Java `int` result is the 32-bit value congruent to the exact result modulo 2^32 |
| `JavaInt.WrapUnique` | broker/src/main/java/io/moquette/broker/subscriptions/Subscription.java:98 | only one 32-bit value is congruent to a given integer |
| `JavaInt.WrapOfInt32` | broker/src/main/java/io/moquette/broker/subscriptions/Subscription.java:98 | a value that fits in 32 bits is not changed by wrapping |
| `JavaInt.WrapAbsorbs` | broker/src/main/java/io/moquette/broker/subscriptions/Subscription.java:98 | wrapping the product before adding gives the same `int` as wrapping the exact sum once |
| `JavaInt.WrapMul31` | broker/src/main/java/io/moquette/broker/subscriptions/Subscription.java:98 | wrapping `result` before `31 * result` gives the same `int` as wrapping the exact product |
| `JavaString.CodeUnits` | broker/src/main/java/io/moquette/broker/subscriptions/Subscription.java:97 | a character becomes one UTF-16 unit below U+10000 and otherwise a surrogate pair that decodes back to it |
| `JavaString.Utf16` | broker/src/main/java/io/moquette/broker/subscriptions/Subscription.java:97 | a string's UTF-16 form has between one and two 16-bit units per character |
| `JavaString.Utf16OfChar` | broker/src/main/java/io/moquette/broker/subscriptions/Subscription.java:97 | a one-character string is encoded by that character's own code units |
| `JavaString.Utf16Append` | broker/src/main/java/io/moquette/broker/subscriptions/Subscription.java:97 | the encoding of a concatenation is the concatenation of the encodings, so the units come out character by character, in order |
| `JavaString.PolynomialSnoc` | broker/src/main/java/io/moquette/broker/subscriptions/Subscription.java:97 | one more unit multiplies the documented hash value by 31 and adds the unit |
| `JavaString.HashLoopIsWrappedPolynomial` | broker/src/main/java/io/moquette/broker/subscriptions/Subscription.java:97 | the `h = 31 * h + unit` loop with 32-bit overflow yields the documented polynomial wrapped to 32 bits |
| `JavaString.StringHashIsWrappedPolynomial` | broker/src/main/java/io/moquette/broker/subscriptions/Subscription.java:97 | `clientId.hashCode()` is the wrapped polynomial of the client id's code units |
| `JavaString.StringHashOfShortStrings` | broker/src/main/java/io/moquette/broker/subscriptions/Subscription.java:97 | the empty string hashes to 0 and a one-unit string to that unit |
| `Subscriptions.HashCodeWithJavaStrings` | broker/src/main/java/io/moquette/broker/subscriptions/Subscription.java:96-99 | with Java's String hash, the subscription hash is the 32-bit wrap of `31 * p(clientId) + h(topicFilter)` |

## Left out

- `clone()` (lines 112-119): the class is not `Cloneable`, so `super.clone()` throws and the method returns null. The copy constructor is the real copy.
- `toString()` (lines 102-110): string formatting only.
- `Serializable` and `serialVersionUID` (lines 26-28): Java serialisation plumbing.
- Topic.java is not part of this model: `Topic` is an opaque type whose `equals` is taken to be value equality.
- `Topic.hashCode`: foreign code, passed in as an arbitrary function. `String.hashCode` is passed in the same way, and `JavaString.StringHash` gives its documented definition; String.java itself is not part of this model.
- Netty's `MqttQoS` failure code (0x80): it is only used in SUBACK replies, never as a requested level.
- The per-client QoS resolver, the subscription registry and the topic-filter matching tree: not part of this code.
- Client ids are modelled as well-formed Unicode strings only: a Dafny `char` is a Unicode scalar value, so a Java `String` holding an unpaired surrogate has no counterpart here, and its `equals` and `hashCode` are not modelled. Section 1.5.3 of MQTT 3.1.1 forbids surrogate code points in a client id, so a well-behaved client never sends one.
- Object identity beyond the `this == o` test of `equals`: the heap only stores subscriptions, and references to other classes are one `Foreign` value.
