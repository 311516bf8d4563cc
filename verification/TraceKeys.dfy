/** The keys of the trace registry, byte by byte, and where one of them lies. */
module TraceKeys {
  import opened Words
  import opened Bytes
  import opened Jenkins
  import opened JenkinsWords
  import opened TraceRegistry

  /** The key of a thread is its id in the memory of a little-endian host, negative ids in two's complement. */
  lemma KeyBytes(thread: int)
    requires InRange(thread, 4)
    ensures var n := if thread >= 0 then thread else 0x1_0000_0000 + thread;
            KeyOf(thread) == [n % 0x100, (n / 0x100) % 0x100, (n / 0x1_0000) % 0x100, (n / 0x100_0000) % 0x100]
  {
    hide LittleBytes;
    var n := if thread >= 0 then thread else 0x1_0000_0000 + thread;
    WrappedThread(thread, n);
    FourLittleBytes(n);
  }

  lemma WrappedThread(thread: int, n: int)
    requires InRange(thread, 4) && n == if thread >= 0 then thread else 0x1_0000_0000 + thread
    ensures 0 <= n && Wrapped(thread, 4) == n
  {
    assert Base(4) == 0x1_0000_0000;
  }

  lemma FourLittleBytes(n: nat)
    ensures LittleBytes(n, 4) == [n % 0x100, (n / 0x100) % 0x100, (n / 0x1_0000) % 0x100, (n / 0x100_0000) % 0x100]
  {
    assert n / 0x100 / 0x100 == n / 0x1_0000 && n / 0x1_0000 / 0x100 == n / 0x100_0000;
    assert LittleBytes(n / 0x100_0000, 1) == [(n / 0x100_0000) % 0x100];
    assert LittleBytes(n / 0x1_0000, 2) == [(n / 0x1_0000) % 0x100, (n / 0x100_0000) % 0x100];
    assert LittleBytes(n / 0x100, 3) == [(n / 0x100) % 0x100, (n / 0x1_0000) % 0x100, (n / 0x100_0000) % 0x100];
  }

  /** In a fresh table of 32 buckets the trace of thread 1 lies in bucket 5. */
  lemma ThreadOneBucket(thread: int)
    requires thread == 1
    ensures KeyOf(thread) == [1, 0, 0, 0]
    ensures HashValue(KeyOf(thread)) == 0x6217_f7a5 && And(HashValue(KeyOf(thread)), 31) == 5
  {
    hide HashValue, And, KeyOf, Base;
    OneInRange();
    KeyBytes(thread);
    FourByteBucket(KeyOf(thread));
  }

  lemma OneInRange()
    ensures InRange(1, 4)
  {
    assert Base(4) == 0x1_0000_0000;
  }
}
