# Key-value argument lists to maps, as used by the deployment stack

The deployment stack of this repository (`InfrastructureStack`) declares a
table, a JRE layer, three functions that differ only in how the Java runtime
is packaged, and an HTTP API routing to each. All of that is declarative
wiring handed to the AWS CDK. The one piece of logic of its own is the
private helper `mapOf(String... keyValues)`. It turns a flat argument list
`key, value, key, value, ...` into a `Map<String, String>`. It walks every
index of the list and, at each even index `i`, puts the pair
(`keyValues[i]`, `keyValues[i + 1]`) into the map. A key that appears twice keeps its last value.

This project models that helper and its three call sites:

- `key_value_pairs.dfy`, module `KeyValuePairs`: what the helper computes.
  `PairsMap` folds the pairs left to right into an empty map and is the
  specification. Beside it are independent descriptions of the result:
  `EvenKeys` is the set of elements at even positions, `LastKeyIndex` is the
  last even position holding a key, and `ReferenceMap` is built from those two.
  The lemmas prove that the fold and these descriptions agree.
- `infrastructure_stack.dfy`, module `InfrastructureStack`: the helper itself
  as the method `MapOf`, with the same index loop and the same `i % 2 == 0`
  test as the Java code. Its loop invariant ties the map built so far to
  `PairsMap` of the prefix read so far. `EnvironmentFor` gives the
  environment map each of the three functions receives.

Odd-length input. The Java loop reads `keyValues[i + 1]` at every even `i`
without a check. For an odd-length list the last index is even, so that read
falls one past the end and the JVM throws `ArrayIndexOutOfBoundsException`.
The helper therefore only works for complete pairs, and `MapOf` requires an
even length (`Paired`). `PartnerInBounds` proves that even length is exactly
the condition under which every read stays in bounds. The helper does not drop
a trailing unpaired key: the unchecked read throws, so every caller must pass
complete pairs.

The argument list is a Dafny `seq`, which is a value. `MapOf` has no
`modifies` clause, so it cannot change its argument or any other state. The
map it returns is a new value.

## Model

| member | source | states |
|---|---|---|
| `InfrastructureStack.MapOf` | infrastructure/src/main/java/example/InfrastructureStack.java:140-148 | Walking every index and putting (kv[i], kv[i+1]) at each even i gives exactly the left-to-right fold `PairsMap` of the pairs. Callers must pass an even-length list. Nothing but the returned map is produced. |
| `KeyValuePairs.PartnerInBounds` | infrastructure/src/main/java/example/InfrastructureStack.java:142-144 | The read of kv[i+1] at every even index i is in bounds if and only if the length is even. For an odd length the last index, length - 1, is even and its partner would be read at position length, one past the end. |
| `KeyValuePairs.KeysAreEvenElements` | infrastructure/src/main/java/example/InfrastructureStack.java:143-144 | The result's key set is exactly the set of elements at even positions. A value at an odd position is a key only if it also occurs at an even position. The result is empty if and only if the input is empty. |
| `KeyValuePairs.EvenKeysCount` | infrastructure/src/main/java/example/InfrastructureStack.java:142-144 | An even-length list has at most length/2 distinct keys. It has exactly length/2 if and only if no key repeats at two even positions. |
| `KeyValuePairs.EntryCount` | infrastructure/src/main/java/example/InfrastructureStack.java:141-146 | The map has at most length/2 entries. It has exactly length/2 entries if and only if the keys at even positions are pairwise distinct. |
| `KeyValuePairs.LastKeyIndex` | infrastructure/src/main/java/example/InfrastructureStack.java:142-144 | For a key, gives the largest even position holding it: an index with its partner in bounds and no later even position holding that key. Gives -1 if and only if the key is not at any even position. |
| `KeyValuePairs.LookupIsLastOccurrence` | infrastructure/src/main/java/example/InfrastructureStack.java:142-145 | Last write wins. A key is in the result if and only if it occurs at an even position. Its value is the element right after its last even occurrence. |
| `KeyValuePairs.MatchesReference` | infrastructure/src/main/java/example/InfrastructureStack.java:140-148 | The fold equals the independent description `ReferenceMap`, which maps every even-position key to the value after its last occurrence. |
| `KeyValuePairs.LastWriteWins` | infrastructure/src/main/java/example/InfrastructureStack.java:143-144 | If no later even position holds the key at even position j, the result maps kv[j] to kv[j+1]. |
| `InfrastructureStack.EnvironmentFor` | infrastructure/src/main/java/example/InfrastructureStack.java:63-95 | The two call sites without the exec wrapper (lines 63-64 and 94-95) give exactly `{"TABLE_NAME": tableName}`. The Java 11 call site (lines 79-81) gives exactly the 2-entry map `{"TABLE_NAME": tableName, "AWS_LAMBDA_EXEC_WRAPPER": "/opt/bootstrap"}`. |

## Left out

- The constructor body (lines 36-138, apart from the `mapOf` arguments): table, layer, function, HTTP API, route, permission-grant and output descriptors are handed to the AWS CDK. Their behaviour lies in that library, not in this code.
- Resource lifecycle, deployment ordering, IAM permissions and asset paths belong to the external provisioning engine.
- `tableName` in `EnvironmentFor` is a parameter. The real value comes from `exampleTable.getTableName()`, which the CDK resolves at deployment time.
- The exception thrown for odd-length input is not a modelled outcome. `MapOf` requires even length instead, and `PartnerInBounds` shows that this is exactly when the Java read stays in bounds.
- The `HashMap` initial capacity `keyValues.length/2` only affects performance, not the result.
- `HashMap` iteration order is not modelled. A Dafny `map` has no order, and no caller depends on one.
- Java `null` keys or values are not modelled. Every call site passes non-null strings.
- The 2^31 - 1 bound on Java array length and `int` indices is not modelled. Lengths are unbounded, which is faithful here because the index `i` never exceeds the array length and so cannot overflow.
