/** The multi-pass reduction of src/modules/day-0.ts: parse newline-separated numbers,
    pad them to a multiple of the workgroup size W, and dispatch the reduction kernel
    over a shrinking element count (elements := ceil(elements / W)) until one remains. */
module Day0 {
  import opened Utils
  import opened Strings

  /** `Math.ceil(n / w)` on natural numbers: the number of w-sized groups that
      cover n elements, the last one possibly partial. */
  function CeilDiv(n: nat, w: nat): (q: nat)
    requires w >= 1
    ensures q * w >= n
    ensures q * w < n + w
    ensures q <= n && (n >= 1 ==> q >= 1)
    decreases n
  {
    if n == 0 then 0 else if n <= w then 1 else 1 + CeilDiv(n - w, w)
  }

  /** CeilDiv is determined by its two bounds. */
  lemma CeilDivUnique(n: nat, d: nat, q: nat)
    requires d >= 1 && q * d >= n && q * d < n + d
    ensures q == CeilDiv(n, d)
  {
    var r := CeilDiv(n, d);
    if q < r {
      MulLe(q, r - 1, d);
    } else if q > r {
      MulLe(r + 1, q, d);
    }
  }

  lemma MulLe(x: nat, y: nat, d: nat)
    requires x <= y
    ensures x * d <= y * d
  {
  }

  /** Every pass launches at least one workgroup for a non-empty range, covers all
      live elements, and with W >= 2 strictly shrinks a range of more than one element. */
  lemma WorkgroupBounds(elements: nat, w: nat)
    requires w >= 1
    ensures CeilDiv(elements, w) * w >= elements
    ensures elements >= 1 ==> CeilDiv(elements, w) >= 1
    ensures w >= 2 && elements > 1 ==> CeilDiv(elements, w) < elements
  {
  }

  /** With W = 1 a pass does not shrink the range: for two or more elements the source loop would
      never end. */
  lemma UnitWorkgroupNeverShrinks(elements: nat)
    ensures CeilDiv(elements, 1) == elements
  {
  }

  /** ceil(ceil(n / a) / b) == ceil(n / (a * b)). */
  lemma CeilDivCeilDiv(n: nat, a: nat, b: nat)
    requires a >= 1 && b >= 1
    ensures CeilDiv(CeilDiv(n, a), b) == CeilDiv(n, a * b)
  {
    var q := CeilDiv(n, a);
    var r := CeilDiv(q, b);
    NestedCover(n, a, b, q, r);
    CeilDivUnique(n, a * b, r);
  }

  /** The arithmetic of CeilDivCeilDiv, on the bounds alone. */
  lemma NestedCover(n: nat, a: nat, b: nat, q: nat, r: nat)
    requires a >= 1 && b >= 1
    requires q * a >= n && q * a < n + a
    requires r * b >= q && r * b < q + b
    ensures r * (a * b) >= n && r * (a * b) < n + a * b
  {
    var rb := r * b;
    assert r * (a * b) == rb * a;
    MulLe(q, rb, a);
    MulLe(rb, q + b - 1, a);
    assert (q + b - 1) * a == q * a + b * a - a;
  }

  /** w to the power k. */
  function Pow(w: nat, k: nat): (r: nat)
    ensures w >= 1 ==> r >= 1
  {
    if k == 0 then 1 else w * Pow(w, k - 1)
  }

  /** The element count after k passes, as the loop computes it. */
  function Shrink(elements: nat, w: nat, k: nat): (r: nat)
    requires w >= 1
    ensures r <= elements
    ensures elements >= 1 ==> r >= 1
  {
    if k == 0 then elements else Shrink(CeilDiv(elements, w), w, k - 1)
  }

  /** Closed form: after k passes the element count is ceil(L / W^k). */
  lemma {:induction false} ShrinkClosedForm(elements: nat, w: nat, k: nat)
    requires w >= 1
    ensures Shrink(elements, w, k) == CeilDiv(elements, Pow(w, k))
  {
    if k == 0 {
      CeilDivUnique(elements, 1, elements);
    } else {
      ShrinkClosedForm(CeilDiv(elements, w), w, k - 1);
      CeilDivCeilDiv(elements, w, Pow(w, k - 1));
    }
  }

  /** The number of passes the `while (elements > 1)` loop makes. */
  function Passes(elements: nat, w: nat): (r: nat)
    requires w >= 2
    ensures r == 0 <==> elements <= 1
    decreases elements
  {
    if elements <= 1 then 0
    else
      WorkgroupBounds(elements, w);
      1 + Passes(CeilDiv(elements, w), w)
  }

  /** The pass count is the least k with W^k >= L. */
  lemma {:induction false} PassesIsLeastExponent(elements: nat, w: nat)
    requires w >= 2 && elements >= 1
    ensures Pow(w, Passes(elements, w)) >= elements
    ensures Passes(elements, w) > 0 ==> Pow(w, Passes(elements, w) - 1) < elements
    decreases elements
  {
    if elements > 1 {
      var q := CeilDiv(elements, w);
      WorkgroupBounds(elements, w);
      PassesIsLeastExponent(q, w);
      var k := Passes(q, w);
      assert Passes(elements, w) == k + 1;
      ExponentCovers(elements, w, q, Pow(w, k));
      if k > 0 {
        ExponentShort(elements, w, q, Pow(w, k - 1));
      }
    }
  }

  lemma ExponentCovers(e: nat, w: nat, q: nat, p: nat)
    requires q * w >= e && p >= q
    ensures w * p >= e
  {
    MulLe(q, p, w);
  }

  lemma ExponentShort(e: nat, w: nat, q: nat, p: nat)
    requires q * w < e + w && p < q
    ensures w * p < e
  {
    MulLe(p, q - 1, w);
  }

  /** The loop leaves exactly one element, after Passes(L, W) passes. */
  lemma {:induction false} ShrinkReachesOne(elements: nat, w: nat)
    requires w >= 2 && elements >= 1
    ensures Shrink(elements, w, Passes(elements, w)) == 1
    decreases elements
  {
    if elements > 1 {
      WorkgroupBounds(elements, w);
      ShrinkReachesOne(CeilDiv(elements, w), w);
    }
  }

  /** `Math.ceil(L / W) * W` is the least multiple of W that is at least L. */
  lemma PaddedSize(count: nat, w: nat)
    requires w >= 1
    ensures var size := CeilDiv(count, w) * w;
      count <= size < count + w && (count >= 1 ==> size >= w)
  {
    if count >= 1 {
      MulLe(1, CeilDiv(count, w), w);
    }
  }

  /** `parse(input)`: split at '\n', turn each line into a number (`toNumber` stands
      for `Number` and the Float32 rounding), and pad with 0 to the least multiple of
      W that holds all lines. */
  function Parse(input: string, toNumber: string -> int, w: nat): (data: seq<int>)
    requires w >= 1
    ensures |data| == CeilDiv(|Split(input, '\n')|, w) * w
    ensures |Split(input, '\n')| <= |data| < |Split(input, '\n')| + w
    ensures |data| >= w
    ensures forall i :: 0 <= i < |Split(input, '\n')| ==> data[i] == toNumber(Split(input, '\n')[i])
    ensures forall i :: |Split(input, '\n')| <= i < |data| ==> data[i] == 0
  {
    var lines := Split(input, '\n');
    var values := seq(|lines|, i requires 0 <= i < |lines| => toNumber(lines[i]));
    PaddedSize(|values|, w);
    Pad(values, CeilDiv(|values|, w) * w, 0)
  }

  /** The kernel writes as many values as its input holds. */
  ghost predicate PreservesLength(kernel: (seq<int>, nat) -> seq<int>)
  {
    forall s: seq<int>, n: nat :: |kernel(s, n)| == |s|
  }

  /** The contents of the input buffer once the loop has run from `elements` live
      elements: each pass replaces them by the kernel's output for that pass. */
  function Reduce(contents: seq<int>, elements: nat, w: nat, kernel: (seq<int>, nat) -> seq<int>): (r: seq<int>)
    requires w >= 2 && PreservesLength(kernel)
    ensures |r| == |contents|
    decreases elements
  {
    if elements <= 1 then contents
    else
      var n := CeilDiv(elements, w);
      WorkgroupBounds(elements, w);
      Reduce(kernel(contents, n), n, w, kernel)
  }

  /** The buffers of one reduction (`ComputeBuffers`): `input` is bound read-only at
      slot 0, `output` read-write at slot 1, `read` is the host-readable copy, and the
      scratchpads are allocated but never bound. Each is an array of `size` elements. */
  class ComputeBuffers {
    const size: nat
    var input: array<int>
    var output: array<int>
    var scratchpads: seq<array<int>>
    var read: array<int>

    ghost predicate Valid()
      reads this
    {
      input.Length == size && output.Length == size && read.Length == size &&
      input != output && input != read && output != read &&
      (forall i :: 0 <= i < |scratchpads| ==>
        scratchpads[i].Length == size &&
        scratchpads[i] != input && scratchpads[i] != output && scratchpads[i] != read) &&
      (forall i, j :: 0 <= i < j < |scratchpads| ==> scratchpads[i] != scratchpads[j])
    }

    /** `initComputeBuffers({ device, data, numScratchpads })`: every buffer has the
        size of `data`; created buffers hold zeros, and `writeBuffer` puts `data` into
        `input`. */
    constructor (data: seq<int>, numScratchpads: nat)
      ensures Valid()
      ensures size == |data|
      ensures input[..] == data
      ensures output[..] == seq(|data|, _ => 0)
      ensures read[..] == seq(|data|, _ => 0)
      ensures |scratchpads| == numScratchpads
      ensures forall i :: 0 <= i < |scratchpads| ==> scratchpads[i][..] == seq(|data|, _ => 0)
      ensures fresh(input) && fresh(output) && fresh(read)
      ensures forall i :: 0 <= i < |scratchpads| ==> fresh(scratchpads[i])
    {
      size := |data|;
      var inputBuffer := new int[|data|](_ => 0);
      var outputBuffer := new int[|data|](_ => 0);
      var pads: seq<array<int>> := [];
      while |pads| < numScratchpads
        invariant |pads| <= numScratchpads
        invariant inputBuffer[..] == seq(|data|, _ => 0) && outputBuffer[..] == seq(|data|, _ => 0)
        invariant forall i :: 0 <= i < |pads| ==>
          fresh(pads[i]) && pads[i][..] == seq(|data|, _ => 0) &&
          pads[i] != inputBuffer && pads[i] != outputBuffer
        invariant forall i, j :: 0 <= i < j < |pads| ==> pads[i] != pads[j]
      {
        var pad := new int[|data|](_ => 0);
        pads := pads + [pad];
      }
      var readBuffer := new int[|data|](_ => 0);
      input, output, scratchpads, read := inputBuffer, outputBuffer, pads, readBuffer;
      new;
      // The host writes the parsed data into the input buffer.
      forall i | 0 <= i < |data| {
        input[i] := data[i];
      }
    }

    /** `compute(...)`, one submitted batch: the kernel (the compiled pipeline's effect)
        reads `input` and fills `output`; then `output` is copied into `read` and into
        `input`, and `output` is cleared. No buffer is replaced or resized. */
    method Compute(numWorkgroups: nat, kernel: (seq<int>, nat) -> seq<int>)
      requires Valid() && PreservesLength(kernel)
      requires output[..] == seq(size, _ => 0)
      modifies input, output, read
      ensures Valid()
      ensures input[..] == kernel(old(input[..]), numWorkgroups)
      ensures read[..] == kernel(old(input[..]), numWorkgroups)
      ensures output[..] == seq(size, _ => 0)
      ensures forall i :: 0 <= i < |scratchpads| ==> scratchpads[i][..] == old(scratchpads[i][..])
    {
      // The dispatch runs the kernel on the input and fills the output buffer.
      var produced := kernel(input[..], numWorkgroups);
      forall i | 0 <= i < output.Length {
        output[i] := produced[i];
      }
      // The output is copied into the host-readable buffer.
      forall i | 0 <= i < read.Length {
        read[i] := output[i];
      }
      // The output is copied back into the input for the next pass.
      forall i | 0 <= i < input.Length {
        input[i] := output[i];
      }
      // The output buffer is cleared.
      forall i | 0 <= i < output.Length {
        output[i] := 0;
      }
      assert read[..] == produced;
      assert input[..] == produced;
    }
  }

  /** `day0(device, input)`: parse, allocate, then `while (elements > 1)` dispatch
      ceil(elements / W) workgroups and continue with that many elements; the answer
      is element 0 of the read buffer. Also returns the number of passes made. */
  method Run(input: string, toNumber: string -> int, w: nat, kernel: (seq<int>, nat) -> seq<int>)
    returns (result: int, passes: nat)
    requires w >= 2 && PreservesLength(kernel)
    ensures var data := Parse(input, toNumber, w);
      passes == Passes(|data|, w) && passes >= 1 &&
      Pow(w, passes) >= |data| && Pow(w, passes - 1) < |data| &&
      result == Reduce(data, |data|, w, kernel)[0]
  {
    var data := Parse(input, toNumber, w);
    var buffers := new ComputeBuffers(data, 0);
    var elements := |data|;
    passes := 0;
    while elements > 1
      invariant buffers.Valid() && buffers.size == |data|
      invariant fresh(buffers.input) && fresh(buffers.output) && fresh(buffers.read)
      invariant buffers.output[..] == seq(|data|, _ => 0)
      invariant 1 <= elements && elements == Shrink(|data|, w, passes)
      invariant passes + Passes(elements, w) == Passes(|data|, w)
      invariant Reduce(buffers.input[..], elements, w, kernel) == Reduce(data, |data|, w, kernel)
      invariant passes > 0 ==> buffers.read[..] == buffers.input[..]
      decreases elements
    {
      var numWorkgroups := CeilDiv(elements, w);
      WorkgroupBounds(elements, w);
      buffers.Compute(numWorkgroups, kernel);
      ShrinkStep(|data|, w, passes);
      elements := numWorkgroups;
      passes := passes + 1;
    }
    PassesIsLeastExponent(|data|, w);
    result := buffers.read[0];
  }

  lemma {:induction false} ShrinkStep(elements: nat, w: nat, k: nat)
    requires w >= 1
    ensures Shrink(elements, w, k + 1) == CeilDiv(Shrink(elements, w, k), w)
  {
    if k > 0 {
      var e := CeilDiv(elements, w);
      ShrinkStep(e, w, k - 1);
      assert Shrink(elements, w, k + 1) == Shrink(e, w, k);
      assert Shrink(elements, w, k) == Shrink(e, w, k - 1);
    }
  }
}
