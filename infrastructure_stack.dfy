/**
 * The decision-making part of the deployment stack: the helper that turns
 * a variadic list of alternating keys and values into a map, and the three
 * environment-variable maps the stack builds with it for its functions.
 */
module InfrastructureStack {
  import opened KeyValuePairs

  /**
   * The helper `mapOf`: walks every index of the argument list and, at each
   * even index, puts the pair (kv[i], kv[i + 1]) into a fresh map.
   * The read of kv[i + 1] at the last even index only stays inside the
   * list when its length is even (see `KeyValuePairs.PartnerInBounds`), so
   * callers must pass complete pairs.
   */
  method MapOf(kv: seq<string>) returns (m: map<string, string>)
    requires Paired(kv)
    ensures m == PairsMap(kv)
  {
    m := map[];
    for i := 0 to |kv|
      invariant i + i % 2 <= |kv|
      invariant m == PairsMap(kv[..i + i % 2])
    {
      if i % 2 == 0 {
        var done := kv[..i + 2];
        assert done[..|done| - 2] == kv[..i];
        m := m[kv[i] := kv[i + 1]];
      }
    }
    assert kv[..|kv|] == kv;
  }

  /** The three functions the stack deploys, one per packaging strategy. */
  datatype FunctionVariant =
    | LayerWithProvidedRuntime   // JRE layer on the provided custom runtime
    | LayerWithJava11Runtime     // JRE layer on the Java 11 runtime, started through a wrapper
    | CustomRuntime              // the JRE bundled into a custom runtime package

  /**
   * The environment each function receives. `tableName` is the name the
   * provisioning engine gives the table; it is chosen outside this code.
   */
  method EnvironmentFor(variant: FunctionVariant, tableName: string) returns (env: map<string, string>)
    ensures variant == LayerWithJava11Runtime ==>
              env == map["TABLE_NAME" := tableName, "AWS_LAMBDA_EXEC_WRAPPER" := "/opt/bootstrap"]
    ensures variant != LayerWithJava11Runtime ==> env == map["TABLE_NAME" := tableName]
    // Corollaries of the two exact maps above, spelled out for callers.
    ensures "TABLE_NAME" in env && env["TABLE_NAME"] == tableName
    ensures |env| == if variant == LayerWithJava11Runtime then 2 else 1
  {
    var args: seq<string>;
    if variant == LayerWithJava11Runtime {
      args := ["TABLE_NAME", tableName, "AWS_LAMBDA_EXEC_WRAPPER", "/opt/bootstrap"];
      assert args[..2][..0] == [] && args[..2] == ["TABLE_NAME", tableName];
      assert PairsMap(args[..2]) == map["TABLE_NAME" := tableName];
    } else {
      args := ["TABLE_NAME", tableName];
      assert args[..0] == [];
    }
    env := MapOf(args);
  }
}
