/** Karplus–Strong plucked-string synthesis: a ring buffer of `N` noise
    values is read at its front and refilled with the damped average of
    its first two values, giving one second of samples that are then
    scaled to 16-bit integers. Samples are exact reals (the script stores
    them as 32-bit floats); the noise is an input; audio and file output
    are not modelled. */
module KarplusStrong {
  import opened Arith
  import opened Wrappers

  const SampleRate := 44100
  const NSamples := 44100

  /** A note of the pentatonic minor scale, name and frequency in Hz. */
  datatype Note = Note(name: string, freq: int)

  /** `pmNotes` in its insertion order. */
  const PmNotes: seq<Note> :=
    [Note("C4", 262), Note("Eb", 311), Note("F", 349), Note("G", 391), Note("Bb", 466)]

  /** The ring-buffer length `int(sampleRate / freq)`. */
  function BufferLength(freq: int): int
    requires freq != 0
  {
    Trunc(SampleRate as real / freq as real)
  }

  /** Every note of the scale gets a buffer of at least two values, so
      `buf[1]` exists; the lengths are 168, 141, 126, 112 and 94. */
  lemma ScaleBufferLengths()
    ensures forall k :: 0 <= k < |PmNotes| ==> PmNotes[k].freq > 0 && BufferLength(PmNotes[k].freq) >= 2
    ensures [BufferLength(262), BufferLength(311), BufferLength(349), BufferLength(391), BufferLength(466)]
      == [168, 141, 126, 112, 94]
  {
    TruncDiv(SampleRate, 262);
    TruncDiv(SampleRate, 311);
    TruncDiv(SampleRate, 349);
    TruncDiv(SampleRate, 391);
    TruncDiv(SampleRate, 466);
  }

  /** The damping step: `0.995 * 0.5 * (x + y)`. */
  function Damp(x: real, y: real): real {
    0.995 * 0.5 * (x + y)
  }

  /** Sample `k` of the note whose buffer starts as `init`: the first `N`
      samples are the noise itself, every later one the damped average of
      the samples `N` and `N - 1` places before it. */
  function Sample(init: seq<real>, k: nat): real
    requires |init| >= 2
    decreases k
  {
    if k < |init| then init[k]
    else Damp(Sample(init, k - |init|), Sample(init, k - |init| + 1))
  }

  /** Noise in [-0.5, 0.5] keeps every sample in [-0.5, 0.5]. */
  lemma {:induction false} SampleBound(init: seq<real>, k: nat)
    requires |init| >= 2
    requires forall t :: 0 <= t < |init| ==> -0.5 <= init[t] <= 0.5
    ensures -0.5 <= Sample(init, k) <= 0.5
    decreases k
  {
    if k >= |init| {
      SampleBound(init, k - |init|);
      SampleBound(init, k - |init| + 1);
    }
  }

  /** The 16-bit conversion `int16(s * 32767)`, truncating toward zero. */
  function ToInt16(s: real): int {
    Trunc(s * 32767.0)
  }

  /** A sample in [-0.5, 0.5] converts to a value in [-16383, 16383], well
      inside the 16-bit range, so the conversion never wraps around. */
  lemma Int16Bound(s: real)
    requires -0.5 <= s <= 0.5
    ensures -16383 <= ToInt16(s) <= 16383
  {
    assert -16384.0 < s * 32767.0 < 16384.0;
  }

  /** The ring buffer after `i` steps: the next `N` samples. */
  ghost predicate BufferAt(buf: seq<real>, init: seq<real>, i: nat)
    requires |init| >= 2
  {
    |buf| == |init| && forall t {:trigger buf[t]} :: 0 <= t < |buf| ==> buf[t] == Sample(init, i + t)
  }

  /** One step of the full deque: the front value leaves and the damped
      average of the first two values joins at the back. */
  lemma StepBuffer(buf: seq<real>, init: seq<real>, i: nat)
    requires |init| >= 2 && BufferAt(buf, init, i)
    ensures BufferAt(buf[1..] + [Damp(buf[0], buf[1])], init, i + 1)
  {
    var next := buf[1..] + [Damp(buf[0], buf[1])];
    var n := |init|;
    forall t | 0 <= t < |next|
      ensures next[t] == Sample(init, i + 1 + t)
    {
      if t < n - 1 {
        assert next[t] == buf[t + 1];
      } else {
        assert next[t] == Damp(Sample(init, i), Sample(init, i + 1));
        assert i + 1 + t - n == i;
      }
    }
  }

  /** `generateNote`: the noise draws `draws` (the values `random.random()`
      returns, in [0, 1)) fill the buffer; the loop writes `samples[i]` from
      the buffer front; the samples are scaled to 16 bits. The script fails
      on a frequency that leaves fewer than two buffer values. */
  method GenerateNote(freq: int, draws: seq<real>) returns (pcm: seq<int>)
    requires freq > 0 && BufferLength(freq) >= 2
    requires |draws| == BufferLength(freq)
    requires forall t :: 0 <= t < |draws| ==> 0.0 <= draws[t] < 1.0
    ensures var init := seq(|draws|, t requires 0 <= t < |draws| => draws[t] - 0.5);
      && |pcm| == NSamples
      && forall k :: 0 <= k < NSamples ==> pcm[k] == ToInt16(Sample(init, k)) && -16383 <= pcm[k] <= 16383
  {
    var N := Trunc(SampleRate as real / freq as real);
    var buf := seq(N, t requires 0 <= t < N => draws[t] - 0.5);
    assert forall t :: 0 <= t < |buf| ==> -0.5 <= buf[t] <= 0.5;
    var samples := RingBuffer(buf);
    pcm := seq(NSamples, k requires 0 <= k < NSamples reads samples => Trunc(samples[k] * 32767.0));
    forall k | 0 <= k < NSamples
      ensures pcm[k] == ToInt16(Sample(buf, k)) && -16383 <= pcm[k] <= 16383
    {
      SampleBound(buf, k);
      Int16Bound(Sample(buf, k));
    }
  }

  /** The sample loop of `generateNote`: `samples[i]` is the front of the
      deque, and the full deque of length `N` takes the damped average of
      its first two values at the back, dropping the front. */
  method RingBuffer(init: seq<real>) returns (samples: array<real>)
    requires |init| >= 2
    ensures fresh(samples) && samples.Length == NSamples
    ensures forall k :: 0 <= k < NSamples ==> samples[k] == Sample(init, k)
  {
    var buf := init;
    assert BufferAt(buf, init, 0);
    samples := new real[NSamples](_ => 0.0);
    var i := 0;
    while i < NSamples
      invariant 0 <= i <= NSamples
      invariant BufferAt(buf, init, i)
      invariant forall k :: 0 <= k < i ==> samples[k] == Sample(init, k)
    {
      samples[i] := buf[0];
      var avg := 0.995 * 0.5 * (buf[0] + buf[1]);
      StepBuffer(buf, init, i);
      buf := buf[1..] + [avg];
      i := i + 1;
    }
  }

  /** The file name under which a note is written. */
  function FileName(n: Note): string {
    n.name + ".wav"
  }

  /** The player's list of note files; the audio stream is not modelled. */
  class NotePlayer {
    var notes: seq<string>

    constructor()
      ensures notes == []
    {
      notes := [];
    }

    /** `add`: the file name goes to the end, the others are kept. */
    method Add(fileName: string)
      modifies this
      ensures notes == old(notes) + [fileName]
    {
      notes := notes + [fileName];
    }

    /** The loop of `main` that registers one file per scale note, in
      order. */
    method AddScale()
      modifies this
      ensures notes == old(notes) + seq(|PmNotes|, k requires 0 <= k < |PmNotes| => FileName(PmNotes[k]))
    {
      ghost var before := notes;
      var k := 0;
      while k < |PmNotes|
        invariant 0 <= k <= |PmNotes|
        invariant notes == before + seq(k, t requires 0 <= t < k => FileName(PmNotes[t]))
      {
        Add(PmNotes[k].name + ".wav");
        k := k + 1;
      }
    }

    /** `playRandom` with the drawn index `draw` of `randint(0, len - 1)`:
      the note at that index, or `None` for an empty list, where
      `randint` raises. Playing it is not modelled. */
    method PlayRandom(draw: int) returns (note: Option<string>)
      requires |notes| > 0 ==> 0 <= draw <= |notes| - 1
      ensures |notes| == 0 <==> note.None?
      ensures note.Some? ==> note.value == notes[draw] && note.value in notes
    {
      if |notes| == 0 {
        return None;
      }
      var index := draw;
      note := Some(notes[index]);
    }
  }

  /** After the scale has been registered a random note always exists, and
      it is one of the scale's files. */
  lemma ScaleIsPlayable(notes: seq<string>, draw: int)
    requires notes == seq(|PmNotes|, k requires 0 <= k < |PmNotes| => FileName(PmNotes[k]))
    requires 0 <= draw <= |notes| - 1
    ensures |notes| == 5 && exists k :: 0 <= k < |PmNotes| && notes[draw] == FileName(PmNotes[k])
  {
    assert notes[draw] == FileName(PmNotes[draw]);
  }
}
