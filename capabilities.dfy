/**
  Capability flags of the client/server protocol. A capability mask is a
  64-bit value; here it is a `nat` below 2^64 and every flag is a single
  power of two, so Go's test `caps & FLAG != 0` is `Has(caps, FLAG)` and
  `caps |= FLAG` is `Set(caps, FLAG)`.
*/
module Capabilities {
  import Bytes

  const MYSQL: nat := 1
  /** Found instead of affected rows */
  const FOUND_ROWS: nat := 2
  /** Get all column flags */
  const LONG_FLAG: nat := 4
  /** One can specify a database on connect */
  const CONNECT_WITH_DB: nat := 8
  const NO_SCHEMA: nat := 0x10
  const COMPRESS: nat := 0x20
  const ODBC: nat := 0x40
  const LOCAL_FILES: nat := 0x80
  const IGNORE_SPACE: nat := 0x100
  const PROTOCOL_41: nat := 0x200
  const INTERACTIVE: nat := 0x400
  const SSL: nat := 0x800
  const IGNORE_SIGPIPE: nat := 0x1000
  const TRANSACTIONS: nat := 0x2000
  const RESERVED: nat := 0x4000
  /** New 4.1 authentication */
  const SECURE_CONNECTION: nat := 0x8000
  const MULTI_STATEMENTS: nat := 0x1_0000
  const MULTI_RESULTS: nat := 0x2_0000
  const PS_MULTI_RESULTS: nat := 0x4_0000
  /** Plugin authentication */
  const PLUGIN_AUTH: nat := 0x8_0000
  const CONNECT_ATTRS: nat := 0x10_0000
  /** Authentication response may be longer than 255 bytes (length-encoded) */
  const PLUGIN_AUTH_LENENC_CLIENT_DATA: nat := 0x20_0000
  const CAN_HANDLE_EXPIRED_PASSWORDS: nat := 0x40_0000
  const SESSION_TRACK: nat := 0x80_0000
  const DEPRECATE_EOF: nat := 0x100_0000
  const SSL_VERIFY_SERVER_CERT: nat := 0x4000_0000
  /** MariaDB extended capabilities */
  const MARIADB_CLIENT_STMT_BULK_OPERATIONS: nat := 0x4_0000_0000
  const MARIADB_CLIENT_EXTENDED_TYPE_INFO: nat := 0x8_0000_0000
  const MARIADB_CLIENT_CACHE_METADATA: nat := 0x10_0000_0000

  /**
    The client's default offer. The ten flags are distinct bits (DefaultBits
    below), so their bitwise OR in the source is their sum.
  */
  const DEFAULT: nat :=
    FOUND_ROWS + IGNORE_SPACE + PROTOCOL_41 + TRANSACTIONS + SECURE_CONNECTION +
    MULTI_RESULTS + PS_MULTI_RESULTS + PLUGIN_AUTH_LENENC_CLIENT_DATA +
    SESSION_TRACK + DEPRECATE_EOF

  /** `caps & flag != 0` for a single-bit flag. */
  predicate Has(caps: nat, flag: nat)
    requires flag > 0
  {
    (caps / flag) % 2 == 1
  }

  /** `caps | flag` for a single-bit flag. */
  function Set(caps: nat, flag: nat): nat
    requires flag > 0
  {
    if Has(caps, flag) then caps else caps + flag
  }

  /**
    Every named flag is a single bit: bits 0 to 24, bit 30 and the MariaDB
    extensions at bits 34, 35 and 36, each flag its own bit.
  */
  lemma FlagBits()
    ensures MYSQL == Bytes.Pow2(0) && FOUND_ROWS == Bytes.Pow2(1) && LONG_FLAG == Bytes.Pow2(2)
    ensures CONNECT_WITH_DB == Bytes.Pow2(3) && NO_SCHEMA == Bytes.Pow2(4) && COMPRESS == Bytes.Pow2(5)
    ensures ODBC == Bytes.Pow2(6) && LOCAL_FILES == Bytes.Pow2(7) && IGNORE_SPACE == Bytes.Pow2(8)
    ensures PROTOCOL_41 == Bytes.Pow2(9) && INTERACTIVE == Bytes.Pow2(10) && SSL == Bytes.Pow2(11)
    ensures IGNORE_SIGPIPE == Bytes.Pow2(12) && TRANSACTIONS == Bytes.Pow2(13) && RESERVED == Bytes.Pow2(14)
    ensures SECURE_CONNECTION == Bytes.Pow2(15) && MULTI_STATEMENTS == Bytes.Pow2(16)
    ensures MULTI_RESULTS == Bytes.Pow2(17) && PS_MULTI_RESULTS == Bytes.Pow2(18)
    ensures PLUGIN_AUTH == Bytes.Pow2(19) && CONNECT_ATTRS == Bytes.Pow2(20)
    ensures PLUGIN_AUTH_LENENC_CLIENT_DATA == Bytes.Pow2(21)
    ensures CAN_HANDLE_EXPIRED_PASSWORDS == Bytes.Pow2(22) && SESSION_TRACK == Bytes.Pow2(23)
    ensures DEPRECATE_EOF == Bytes.Pow2(24) && SSL_VERIFY_SERVER_CERT == Bytes.Pow2(30)
    ensures MARIADB_CLIENT_STMT_BULK_OPERATIONS == Bytes.Pow2(34)
    ensures MARIADB_CLIENT_EXTENDED_TYPE_INFO == Bytes.Pow2(35)
    ensures MARIADB_CLIENT_CACHE_METADATA == Bytes.Pow2(36)
  {
  }

  /** DEFAULT holds exactly the ten flags it names. */
  lemma DefaultBits()
    ensures Has(DEFAULT, FOUND_ROWS) && Has(DEFAULT, IGNORE_SPACE) && Has(DEFAULT, PROTOCOL_41)
    ensures Has(DEFAULT, TRANSACTIONS) && Has(DEFAULT, SECURE_CONNECTION)
    ensures Has(DEFAULT, MULTI_RESULTS) && Has(DEFAULT, PS_MULTI_RESULTS)
    ensures Has(DEFAULT, PLUGIN_AUTH_LENENC_CLIENT_DATA) && Has(DEFAULT, SESSION_TRACK)
    ensures Has(DEFAULT, DEPRECATE_EOF)
    ensures DEFAULT == 0x1a6_a302
  {
  }

  /**
    DEFAULT offers neither plugin authentication, nor a database on connect,
    nor the MYSQL bit (negotiation adds the first two when warranted), nor
    compression, LOCAL INFILE, TLS, connection attributes or extended type
    information; and its high 32-bit word is zero.
  */
  lemma DefaultExcludes()
    ensures !Has(DEFAULT, PLUGIN_AUTH) && !Has(DEFAULT, CONNECT_WITH_DB) && !Has(DEFAULT, MYSQL)
    ensures !Has(DEFAULT, COMPRESS) && !Has(DEFAULT, LOCAL_FILES) && !Has(DEFAULT, SSL)
    ensures !Has(DEFAULT, CONNECT_ATTRS) && !Has(DEFAULT, MARIADB_CLIENT_EXTENDED_TYPE_INFO)
    ensures DEFAULT / 0x1_0000_0000 == 0
  {
  }

  /** Adding a multiple of 2m to a mask does not change the flags below m. */
  lemma {:induction false} HasIgnoresHigh(x: nat, e: nat, flag: nat, m: nat)
    requires flag > 0 && m > 0 && m % flag == 0 && (m / flag) % 2 == 0
    ensures Has(x + e * m, flag) == Has(x, flag)
  {
    var c := m / flag;
    assert m == flag * c by { ModUniqueDiv(m, flag); }
    var q := x / flag;
    assert x + e * m == flag * (q + e * c) + x % flag by {
      assert x == flag * q + x % flag;
      assert e * m == flag * (e * c);
    }
    Bytes.ModUnique(x + e * m, flag, q + e * c, x % flag);
    var h := c / 2;
    assert c == 2 * h;
    assert q + e * c == 2 * (q / 2 + e * h) + q % 2;
    Bytes.ModUnique(q + e * c, 2, q / 2 + e * h, q % 2);
  }

  lemma ModUniqueDiv(m: nat, f: nat)
    requires f > 0 && m % f == 0
    ensures m == f * (m / f)
  {
  }

  /** Flags in the low 32-bit word do not see the extended (high) capability word. */
  lemma HasLowFlag(x: nat, e: nat, flag: nat)
    requires flag in {MYSQL, CONNECT_WITH_DB, SECURE_CONNECTION, PLUGIN_AUTH, CONNECT_ATTRS, PLUGIN_AUTH_LENENC_CLIENT_DATA}
    ensures Has(x + e * 0x1_0000_0000, flag) == Has(x, flag)
  {
    HasIgnoresHigh(x, e, flag, 0x1_0000_0000);
  }
}
