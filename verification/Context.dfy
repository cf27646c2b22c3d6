/** crates/treedx_graph/src/context/mod.rs: packing ranked nodes into a token budget. */
module Context {
  import opened Wrappers
  import opened Text
  import opened Query

  /** Additions on `u32` are checked not to overflow. */
  newtype u32 = x: int | 0 <= x < 0x1_0000_0000

  const U32_MAX: u32 := 0xFFFF_FFFF

  // ---------------------------------------------------------------- estimates

  /** Four bytes of trimmed text to a token, rounded up, at least one; the cast to `u32` saturates. */
  function TokenEstimate(text: string): (t: u32)
    ensures t >= 1
  {
    var tokens := (Utf8Len(Trim(text)) + 3) / 4;
    if tokens < 1 then 1 else if tokens > U32_MAX as int then U32_MAX else tokens as u32
  }

  /** `max_tokens.saturating_mul(4)` */
  function MaxChars(maxTokens: u32): nat
  {
    if maxTokens as int * 4 > U32_MAX as int then U32_MAX as int else maxTokens as int * 4
  }

  function Truncate(text: string, maxTokens: u32): (t: string)
    ensures t <= text && |t| <= MaxChars(maxTokens)
    ensures |text| <= MaxChars(maxTokens) ==> t == text
  {
    if |text| <= MaxChars(maxTokens) then text else text[..MaxChars(maxTokens)]
  }

  function Min(a: u32, b: u32): u32
  {
    if a < b then a else b
  }

  predicate Ascii(s: string)
  {
    forall i :: 0 <= i < |s| ==> (s[i] as int) < 0x80
  }

  lemma {:induction false} AsciiLen(s: string)
    requires Ascii(s)
    ensures Utf8Len(s) == |s|
  {
    if s != "" {
      AsciiLen(s[..|s| - 1]);
    }
  }

  lemma TrimIsSlice(s: string)
    ensures exists i, j :: 0 <= i <= j <= |s| && Trim(s) == s[i..j]
  {
    TrimStartKeeps(s);
    TrimEndKeeps(TrimStart(s));
    var i := |s| - |TrimStart(s)|;
    var j := i + |Trim(s)|;
    assert Trim(s) == s[i..j];
  }

  /** The estimate is reported as it is, not cut down to the budget, exactly when the trimmed bytes
      of the truncated text fit the budget. */
  lemma EstimateTrueIff(text: string, remaining: u32)
    requires remaining >= 1
    ensures var t := Truncate(text, remaining);
            Min(TokenEstimate(t), remaining) == TokenEstimate(t) <==> Utf8Len(Trim(t)) <= 4 * remaining as int
  {
    var t := Truncate(text, remaining);
    var n := Utf8Len(Trim(t));
    assert |t| <= U32_MAX as int;
    TrimTrims(t);
    Utf8LenAtLeast(Trim(t));
  }

  /** A token is begun by every four bytes of trimmed text, and there is always one, up to what fits 32 bits. */
  lemma EstimateExact(text: string)
    ensures var t, bytes := TokenEstimate(text) as int, Utf8Len(Trim(text));
            && t >= 1 && (bytes == 0 ==> t == 1)
            && (0 < bytes <= 4 * 0xFFFF_FFFF ==> 4 * (t - 1) < bytes <= 4 * t)
            && (bytes > 4 * 0xFFFF_FFFF ==> t == 0xFFFF_FFFF)
  {
  }

  /** For ASCII text that is always so, also where the character limit saturates. */
  lemma AsciiEstimateIsTrue(text: string, remaining: u32)
    requires Ascii(text) && remaining >= 1
    ensures TokenEstimate(Truncate(text, remaining)) <= remaining
  {
    var t := Truncate(text, remaining);
    TrimIsSlice(t);
    var i, j :| 0 <= i <= j <= |t| && Trim(t) == t[i..j];
    assert Ascii(t) && Ascii(t[i..j]);
    AsciiLen(t[i..j]);
  }

  /** For other text it need not be: four euro signs are three tokens, and fill a budget of one. */
  lemma NonAsciiEstimateIsCut()
    ensures var text := "\U{20AC}\U{20AC}\U{20AC}\U{20AC}";
            && Truncate(text, 1) == text
            && TokenEstimate(text) == 3 && Min(TokenEstimate(text), 1) == 1
  {
    var e := "\U{20AC}";
    var text := "\U{20AC}\U{20AC}\U{20AC}\U{20AC}";
    assert Trim(text) == text;
    assert text[..3][..2][..1][..0] == "";
    assert text[..3] == "\U{20AC}\U{20AC}\U{20AC}" && text[..3][..2] == "\U{20AC}\U{20AC}" && text[..3][..2][..1] == e;
    assert Utf8Len(e) == 3;
    assert Utf8Len(text[..3][..2]) == 6;
    assert Utf8Len(text[..3]) == 9;
  }

  // ---------------------------------------------------------------- packing

  datatype Packed = Packed(entry: NodeResult, text: string, estimate: u32)

  predicate Eligible(r: NodeResult, mode: string)
  {
    && (mode == "files" ==> r.node.nodeType == "File")
    && (mode == "sections" ==> r.node.nodeType == "Section")
    && (mode == "mixed" ==> r.node.nodeType == "File" || r.node.nodeType == "Section")
  }

  function TextOf(r: NodeResult): string
  {
    if r.node.text.Some? then r.node.text.value else ""
  }

  /** The eligible results that have text, in rank order. */
  function Wanted(results: seq<NodeResult>, mode: string): seq<NodeResult>
  {
    if results == [] then []
    else
      var r := results[|results| - 1];
      var before := Wanted(results[..|results| - 1], mode);
      if Eligible(r, mode) && TextOf(r) != "" then before + [r] else before
  }

  function Total(packed: seq<Packed>): nat
  {
    if packed == [] then 0 else Total(packed[..|packed| - 1]) + packed[|packed| - 1].estimate as int
  }

  /** The i-th packed node is the i-th wanted one, cut to what the ones before it left of the budget. */
  ghost predicate PackedInOrder(wanted: seq<NodeResult>, packed: seq<Packed>, maxTokens: u32)
  {
    && |packed| <= |wanted|
    && forall i :: 0 <= i < |packed| ==> PackedAt(wanted[i], packed, i, maxTokens)
  }

  ghost predicate PackedAt(r: NodeResult, packed: seq<Packed>, i: nat, maxTokens: u32)
    requires i < |packed|
  {
    && Total(packed[..i]) < maxTokens as int
    && var left := (maxTokens as int - Total(packed[..i])) as u32;
    && packed[i].entry == r
    && packed[i].text == Truncate(TextOf(r), left) && packed[i].text != ""
    && packed[i].estimate == Min(TokenEstimate(packed[i].text), left)
  }

  /** Nothing more could be packed: no node left, no room for a node, or no token left. */
  predicate Full(wanted: seq<NodeResult>, packed: seq<Packed>, maxNodes: nat, maxTokens: u32)
  {
    |packed| == |wanted| || |packed| == maxNodes || Total(packed) == maxTokens as int
  }

  lemma PackOne(wanted: seq<NodeResult>, packed: seq<Packed>, maxTokens: u32, p: Packed)
    requires PackedInOrder(wanted, packed, maxTokens) && |packed| < |wanted|
    requires PackedAt(wanted[|packed|], packed + [p], |packed|, maxTokens)
    ensures PackedInOrder(wanted, packed + [p], maxTokens)
    ensures Total(packed + [p]) == Total(packed) + p.estimate as int
  {
    var next := packed + [p];
    assert next[..|packed|] == packed;
    forall i | 0 <= i < |packed| ensures PackedAt(wanted[i], next, i, maxTokens)
    {
      assert PackedAt(wanted[i], packed, i, maxTokens);
      assert next[..i] == packed[..i];
    }
  }

  lemma {:induction false} WantedGrows(results: seq<NodeResult>, mode: string, i: nat)
    requires i <= |results|
    ensures Wanted(results[..i], mode) <= Wanted(results, mode)
    decreases |results|
  {
    if i < |results| {
      var init := results[..|results| - 1];
      WantedGrows(init, mode, i);
      assert init[..i] == results[..i];
    } else {
      assert results[..i] == results;
    }
  }

  /** The body of the loop for an eligible node: pack it if it has text and a token is left. */
  method PackNext(r: NodeResult, packed: seq<Packed>, total: u32, maxTokens: u32, ghost wanted: seq<NodeResult>)
    returns (packed': seq<Packed>, total': u32)
    requires PackedInOrder(wanted, packed, maxTokens) && total as int == Total(packed) && total <= maxTokens
    requires TextOf(r) != "" && total < maxTokens ==> |packed| < |wanted| && wanted[|packed|] == r
    ensures PackedInOrder(wanted, packed', maxTokens) && total' as int == Total(packed') && total' <= maxTokens
    ensures |packed'| == |packed| + (if TextOf(r) != "" && total < maxTokens then 1 else 0)
    ensures total == maxTokens ==> total' == maxTokens
  {
    packed', total' := packed, total;
    var remaining := maxTokens - total;
    if remaining == 0 {
      return;
    }
    var text := Truncate(TextOf(r), remaining);
    var estimate := Min(TokenEstimate(text), remaining);
    if text == "" || total + estimate > maxTokens {
      return;
    }
    var p := Packed(r, text, estimate);
    assert (packed + [p])[..|packed|] == packed;
    PackOne(wanted, packed, maxTokens, p);
    packed', total' := packed + [p], total + estimate;
  }

  /** `build_context_pack`: the longest prefix of the wanted nodes that the node and token budgets allow. */
  method BuildContextPack(results: seq<NodeResult>, maxNodesOption: Option<nat>, maxTokensOption: Option<u32>,
                          modeOption: Option<string>)
    returns (packed: seq<Packed>, total: u32)
    ensures var maxNodes := MaxNodes(maxNodesOption);
            var maxTokens := if maxTokensOption.Some? then maxTokensOption.value else 1800;
            var wanted := Wanted(results, if modeOption.Some? then modeOption.value else "mixed");
            && PackedInOrder(wanted, packed, maxTokens)
            && total as int == Total(packed) && total <= maxTokens && |packed| <= maxNodes
            && Full(wanted, packed, maxNodes, maxTokens)
    ensures forall p :: p in packed ==>
              && p.entry in results && p.entry.node.text.Some? && p.text != "" && p.text <= p.entry.node.text.value
              && OfMode(p.entry.node.nodeType, if modeOption.Some? then modeOption.value else "mixed")
  {
    packed, total := PackAll(results, MaxNodes(maxNodesOption),
                             if maxTokensOption.Some? then maxTokensOption.value else 1800,
                             if modeOption.Some? then modeOption.value else "mixed");
    PackedOfMode(results, if modeOption.Some? then modeOption.value else "mixed", packed,
                 if maxTokensOption.Some? then maxTokensOption.value else 1800);
  }

  /** The loop over the ranked nodes. */
  method PackAll(results: seq<NodeResult>, maxNodes: nat, maxTokens: u32, mode: string)
    returns (packed: seq<Packed>, total: u32)
    ensures PackedInOrder(Wanted(results, mode), packed, maxTokens)
    ensures total as int == Total(packed) && total <= maxTokens && |packed| <= maxNodes
    ensures Full(Wanted(results, mode), packed, maxNodes, maxTokens)
  {
    ghost var wanted := Wanted(results, mode);
    ghost var count := 0;
    packed, total := [], 0;
    var i := 0;
    while i < |results| && |packed| < maxNodes
      invariant 0 <= i <= |results| && count == |Wanted(results[..i], mode)|
      invariant PackedInOrder(wanted, packed, maxTokens)
      invariant total as int == Total(packed) && total <= maxTokens && |packed| <= maxNodes
      invariant |packed| == count || total == maxTokens
    {
      WantedStep(results, mode, i);
      if Eligible(results[i], mode) && TextOf(results[i]) != "" { count := count + 1; }
      if Eligible(results[i], mode) {
        packed, total := PackNext(results[i], packed, total, maxTokens, wanted);
      }
      i := i + 1;
    }
    TakeAll(results);
  }

  lemma WantedStep(results: seq<NodeResult>, mode: string, i: nat)
    requires i < |results|
    ensures Wanted(results[..i + 1], mode) ==
            if Eligible(results[i], mode) && TextOf(results[i]) != "" then Wanted(results[..i], mode) + [results[i]]
            else Wanted(results[..i], mode)
    ensures Eligible(results[i], mode) && TextOf(results[i]) != "" ==>
              var k := |Wanted(results[..i], mode)|;
              k < |Wanted(results, mode)| && Wanted(results, mode)[k] == results[i]
  {
    WantedGrows(results, mode, i + 1);
    assert results[..i + 1][..i] == results[..i];
  }

  /** `max_nodes.unwrap_or(8).clamp(1, 50)` */
  function MaxNodes(value: Option<nat>): nat
  {
    var v := if value.Some? then value.value else 8;
    if v < 1 then 1 else if v > 50 then 50 else v
  }

  /** The node budget lies between 1 and 50; without one it is 8. */
  lemma MaxNodesRange(value: Option<nat>)
    ensures 1 <= MaxNodes(value) <= 50 && (value.None? ==> MaxNodes(value) == 8)
    ensures value.Some? && 1 <= value.value <= 50 ==> MaxNodes(value) == value.value
    ensures value.Some? && value.value > 50 ==> MaxNodes(value) == 50
  {
  }

  /** Truncation keeps as much of the text as four characters to a token allow, and no more than fits 32 bits. */
  lemma TruncateExact(text: string, maxTokens: u32)
    ensures Truncate(text, maxTokens) <= text
    ensures |Truncate(text, maxTokens)| == |text| ||
            |Truncate(text, maxTokens)| == 4 * maxTokens as int < |text| ||
            |Truncate(text, maxTokens)| == 0xFFFF_FFFF < |text|
    ensures |Truncate(text, maxTokens)| <= 4 * maxTokens as int && |Truncate(text, maxTokens)| <= 0xFFFF_FFFF
    ensures |Truncate(text, maxTokens)| == 0xFFFF_FFFF < |text| ==> 4 * maxTokens as int >= 0xFFFF_FFFF
  {
  }

  /** A node may be packed in this mode: files, sections, both, or in any other mode every node. */
  predicate OfMode(nodeType: string, mode: string)
  {
    match mode
    case "files" => nodeType == "File"
    case "sections" => nodeType == "Section"
    case "mixed" => nodeType == "File" || nodeType == "Section"
    case _ => true
  }

  ghost function Packable(mode: string): NodeResult -> bool
  {
    (r: NodeResult) => OfMode(r.node.nodeType, mode) && r.node.text.Some? && r.node.text.value != ""
  }

  lemma PackableIff(r: NodeResult, mode: string)
    ensures Packable(mode)(r) <==> Eligible(r, mode) && TextOf(r) != ""
  {
  }

  /** The nodes to pack are the ranked ones of the mode that have text, in their order. */
  lemma {:induction false} WantedExact(results: seq<NodeResult>, mode: string)
    ensures FiltersTo(results, Packable(mode), Wanted(results, mode))
  {
    if results == [] {
      FiltersEmpty(Packable(mode));
    } else {
      var init, last := results[..|results| - 1], results[|results| - 1];
      WantedExact(init, mode);
      PackableIff(last, mode);
      FiltersSnoc(results, Packable(mode), Wanted(init, mode));
    }
  }

  /** Each packed text is as much of its node's text as the tokens left over by the texts before it pay for, at four
      characters a token; its estimate is that of the text, or those tokens if they are fewer. */
  lemma PackedTextExact(wanted: seq<NodeResult>, packed: seq<Packed>, maxTokens: u32, i: nat)
    requires PackedInOrder(wanted, packed, maxTokens) && i < |packed|
    ensures var left, full := maxTokens as int - Total(packed[..i]), TextOf(wanted[i]);
            && left > 0 && packed[i].entry == wanted[i] && packed[i].text <= full
            && (|full| <= 4 * left && |full| <= 0xFFFF_FFFF ==> packed[i].text == full)
            && (|full| > 4 * left && 4 * left <= 0xFFFF_FFFF ==> |packed[i].text| == 4 * left)
            && (|full| > 0xFFFF_FFFF && 4 * left > 0xFFFF_FFFF ==> |packed[i].text| == 0xFFFF_FFFF)
            && packed[i].estimate as int ==
               if TokenEstimate(packed[i].text) as int <= left then TokenEstimate(packed[i].text) as int else left
  {
    assert PackedAt(wanted[i], packed, i, maxTokens);
  }

  /** So every packed node is one of the ranked ones, has text and is of a type the mode asks for. */
  lemma PackedOfMode(results: seq<NodeResult>, mode: string, packed: seq<Packed>, maxTokens: u32)
    requires PackedInOrder(Wanted(results, mode), packed, maxTokens)
    ensures forall p :: p in packed ==>
              && p.entry in results && OfMode(p.entry.node.nodeType, mode)
              && p.entry.node.text.Some? && p.text != "" && p.text <= p.entry.node.text.value
  {
    WantedExact(results, mode);
    FiltersMembers(results, Packable(mode), Wanted(results, mode));
    forall p | p in packed
      ensures p.entry in results && Packable(mode)(p.entry) && p.text != "" && p.text <= p.entry.node.text.value
    {
      var i :| 0 <= i < |packed| && packed[i] == p;
      assert PackedAt(Wanted(results, mode)[i], packed, i, maxTokens);
      assert p.entry in Wanted(results, mode);
    }
  }

  /** If all texts are ASCII, every reported estimate is the estimate of the packed text. */
  lemma AsciiPackIsTrue(wanted: seq<NodeResult>, packed: seq<Packed>, maxTokens: u32, i: nat)
    requires PackedInOrder(wanted, packed, maxTokens) && i < |packed|
    requires Ascii(TextOf(wanted[i]))
    ensures packed[i].estimate == TokenEstimate(packed[i].text)
  {
    assert PackedAt(wanted[i], packed, i, maxTokens);
    AsciiEstimateIsTrue(TextOf(wanted[i]), (maxTokens as int - Total(packed[..i])) as u32);
  }
}
