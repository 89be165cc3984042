/** The limits the source sets, as the numbers it writes. */
module Limits {
  import Sync
  import Receiver
  import Transmit
  import Throttle
  import Events
  import CliPool
  import LogQueue

  lemma Synchroniser()
    ensures Sync.MAX_BUFFER == 8192 && Sync.TAIL_KEPT == 16
    ensures Sync.MIN_FRAME == 4 && Sync.MAX_FRAME == 2048 && Sync.SHORT_SEARCH_LIMIT == 64
  {
  }

  lemma EventLoop()
    ensures Receiver.FRAME_CAPACITY == 8192 && Receiver.PAYLOAD_CAPACITY == 8192
    ensures Receiver.FAIL_STREAK_LIMIT == 4
    ensures Throttle.CHUNK == 32 && Throttle.HIGH_WATER == 48 && Throttle.LOW_WATER == 12
  {
  }

  lemma Queues()
    ensures Transmit.QUEUE_SIZE == 64 && Transmit.FRAME_MAX == 2048
    ensures Events.CAPACITY == 16
    ensures LogQueue.DEPTH == 128 && LogQueue.LINE_MAX == 160
    ensures CliPool.LINE_MAX == 128 && CliPool.POOL_SIZE == 16 && CliPool.CHARS_PER_POLL == 16
  {
  }
}
