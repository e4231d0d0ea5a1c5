/** Rows of the package's test table, stated against the renderer's
    specification. */
module ByteSizeExamples {
  import opened Decimal
  import opened ByteSize

  /** Counts below 1024 print in plain bytes. */
  lemma PlainBytes1()
    ensures Render(0, 3) == "0B"
    ensures Render(1, 3) == "1B"
    ensures Render(1000, 3) == "1000B"
  {
    assert Digits(0) == "0";
    assert Digits(1) == "1";
    assert Digits(1000) == "1000";
  }

  lemma PlainBytes2()
    ensures Render(1023, 3) == "1023B"
    ensures Render(-1, 3) == "-1B"
    ensures Render(-1023, 3) == "-1023B"
  {
    assert Digits(1023) == "1023";
    assert Digits(1) == "1";
  }

  /** Around one kibibyte: an exact multiple prints no point, anything else two decimals. */
  lemma KibiRows1()
    ensures Render(-1024, 3) == "-1KiB"
    ensures Render(-1025, 3) == "-1.00KiB"
    ensures Render(1024, 3) == "1KiB"
  {
    UnitTable();
    assert Level(1024) == 1;
    assert Digits(1) == "1";
    assert Level(1025) == 1;
    assert Places(1025, 1024) == 2;
    assert Scaled(1025, 1024, 2) == 100;
    assert Fixed(100, 2) == "1.00";
  }

  lemma KibiRows2()
    ensures Render(1025, 3) == "1.00KiB"
    ensures Render(1029, 3) == "1.00KiB"
    ensures Render(1030, 3) == "1.01KiB"
  {
    UnitTable();
    assert Level(1025) == 1;
    assert Places(1025, 1024) == 2;
    assert Scaled(1025, 1024, 2) == 100;
    assert Fixed(100, 2) == "1.00";
    assert Level(1029) == 1;
    assert Places(1029, 1024) == 2;
    assert Scaled(1029, 1024, 2) == 100;
    assert Level(1030) == 1;
    assert Places(1030, 1024) == 2;
    assert Scaled(1030, 1024, 2) == 101;
    assert Fixed(101, 2) == "1.01";
  }

  lemma KibiRows3()
    ensures Render(1039, 3) == "1.01KiB"
    ensures Render(1049, 3) == "1.02KiB"
  {
    UnitTable();
    assert Level(1039) == 1;
    assert Places(1039, 1024) == 2;
    assert Scaled(1039, 1024, 2) == 101;
    assert Fixed(101, 2) == "1.01";
    assert Level(1049) == 1;
    assert Places(1049, 1024) == 2;
    assert Scaled(1049, 1024, 2) == 102;
    assert Fixed(102, 2) == "1.02";
  }

  /** A few kibibytes. */
  lemma FewKibiRows1()
    ensures Render(5119, 3) == "5.00KiB"
    ensures Render(5120, 3) == "5KiB"
    ensures Render(5121, 3) == "5.00KiB"
  {
    UnitTable();
    assert Level(5119) == 1;
    assert Places(5119, 1024) == 2;
    assert Scaled(5119, 1024, 2) == 500;
    assert Fixed(500, 2) == "5.00";
    assert Level(5120) == 1;
    assert Digits(5) == "5";
    assert Level(5121) == 1;
    assert Places(5121, 1024) == 2;
    assert Scaled(5121, 1024, 2) == 500;
  }

  lemma FewKibiRows2()
    ensures Render(9000, 3) == "8.79KiB"
  {
    UnitTable();
    assert Level(9000) == 1;
    assert Places(9000, 1024) == 2;
    assert Scaled(9000, 1024, 2) == 879;
    assert Fixed(879, 2) == "8.79";
  }

  /** The switch from two decimals to one. */
  lemma TenKibiRows1()
    ensures Render(10234, 3) == "9.99KiB"
    ensures Render(10235, 3) == "10.0KiB"
    ensures Render(10239, 3) == "10.0KiB"
  {
    UnitTable();
    assert Level(10234) == 1;
    assert Places(10234, 1024) == 2;
    assert Scaled(10234, 1024, 2) == 999;
    assert Fixed(999, 2) == "9.99";
    assert Level(10235) == 1;
    assert Places(10235, 1024) == 1;
    assert Scaled(10235, 1024, 1) == 100;
    assert Fixed(100, 1) == "10.0";
    assert Level(10239) == 1;
    assert Places(10239, 1024) == 1;
    assert Scaled(10239, 1024, 1) == 100;
  }

  lemma TenKibiRows2()
    ensures Render(10240, 3) == "10KiB"
    ensures Render(10241, 3) == "10.0KiB"
    ensures Render(10291, 3) == "10.0KiB"
  {
    UnitTable();
    assert Level(10240) == 1;
    assert Digits(10) == "10";
    assert Level(10241) == 1;
    assert Places(10241, 1024) == 1;
    assert Scaled(10241, 1024, 1) == 100;
    assert Fixed(100, 1) == "10.0";
    assert Level(10291) == 1;
    assert Places(10291, 1024) == 1;
    assert Scaled(10291, 1024, 1) == 100;
  }

  lemma TenKibiRows3()
    ensures Render(10292, 3) == "10.1KiB"
  {
    UnitTable();
    assert Level(10292) == 1;
    assert Places(10292, 1024) == 1;
    assert Scaled(10292, 1024, 1) == 101;
    assert Fixed(101, 1) == "10.1";
  }

  /** The switch from one decimal to none. */
  lemma HundredKibiRows1()
    ensures Render(102348, 3) == "99.9KiB"
    ensures Render(102349, 3) == "100KiB"
    ensures Render(102400, 3) == "100KiB"
  {
    UnitTable();
    assert Level(102348) == 1;
    assert Places(102348, 1024) == 1;
    assert Scaled(102348, 1024, 1) == 999;
    assert Fixed(999, 1) == "99.9";
    assert Level(102349) == 1;
    assert Places(102349, 1024) == 0;
    assert Scaled(102349, 1024, 0) == 100;
    assert Fixed(100, 0) == "100";
    assert Level(102400) == 1;
    assert Digits(100) == "100";
  }

  lemma HundredKibiRows2()
    ensures Render(102911, 3) == "100KiB"
    ensures Render(102912, 3) == "101KiB"
    ensures Render(102920, 3) == "101KiB"
  {
    UnitTable();
    assert Level(102911) == 1;
    assert Places(102911, 1024) == 0;
    assert Scaled(102911, 1024, 0) == 100;
    assert Fixed(100, 0) == "100";
    assert Level(102912) == 1;
    assert Places(102912, 1024) == 0;
    assert Scaled(102912, 1024, 0) == 101;
    assert Fixed(101, 0) == "101";
    assert Level(102920) == 1;
    assert Places(102920, 1024) == 0;
    assert Scaled(102920, 1024, 0) == 101;
  }

  /** The top of the kibibyte range: "1024KiB" until the value is exactly one mebibyte. */
  lemma MebiRows1()
    ensures Render(1048063, 3) == "1023KiB"
  {
    UnitTable();
    assert Level(1048063) == 1;
    assert Places(1048063, 1024) == 0;
    assert Scaled(1048063, 1024, 0) == 1023;
    assert Fixed(1023, 0) == "1023";
  }

  lemma MebiRows2()
    ensures Render(1048064, 3) == "1024KiB"
  {
    UnitTable();
    assert Level(1048064) == 1;
    assert Places(1048064, 1024) == 0;
    assert Scaled(1048064, 1024, 0) == 1024;
    assert Fixed(1024, 0) == "1024";
  }

  lemma MebiRows3()
    ensures Render(1048575, 3) == "1024KiB"
  {
    UnitTable();
    assert Level(1048575) == 1;
    assert Places(1048575, 1024) == 0;
    assert Scaled(1048575, 1024, 0) == 1024;
    assert Fixed(1024, 0) == "1024";
  }

  lemma MebiRows4()
    ensures Render(1048576, 3) == "1MiB"
  {
    UnitTable();
    assert Level(1048576) == 2;
    assert Digits(1) == "1";
  }

  lemma MebiRows5()
    ensures Render(1048577, 3) == "1.00MiB"
  {
    UnitTable();
    assert Level(1048577) == 2;
    assert Places(1048577, 1048576) == 2;
    assert Scaled(1048577, 1048576, 2) == 100;
    assert Fixed(100, 2) == "1.00";
  }

  /** The larger units, the exbibyte ones taking the overflow-free path. */
  lemma LargeRows1()
    ensures Render(0x4000_0000, 3) == "1GiB"
  {
    UnitTable();
    assert Level(0x4000_0000) == 3;
    assert Digits(1) == "1";
  }

  lemma LargeRows2()
    ensures Render(0x100_0000_0000, 3) == "1TiB"
  {
    UnitTable();
    assert Level(0x100_0000_0000) == 4;
    assert Digits(1) == "1";
  }

  lemma LargeRows3()
    ensures Render(0x4_0000_0000_0000, 3) == "1PiB"
  {
    UnitTable();
    assert Level(0x4_0000_0000_0000) == 5;
    assert Digits(1) == "1";
  }

  lemma LargeRows4()
    ensures Render(0x1000_0000_0000_0000, 3) == "1EiB"
  {
    UnitTable();
    assert Level(0x1000_0000_0000_0000) == 6;
    assert Digits(1) == "1";
  }

  lemma LargeRows5()
    ensures Render(1025 * 0x4_0000_0000_0000, 3) == "1.00EiB"
  {
    UnitTable();
    assert Level(1025 * 0x4_0000_0000_0000) == 6;
    assert EiBScaled(1025 * 0x4_0000_0000_0000) == 100;
    assert Fixed(100, 2) == "1.00";
  }

  lemma LargeRows6()
    ensures Render(1256 * 0x4_0000_0000_0000, 3) == "1.23EiB"
  {
    UnitTable();
    assert Level(1256 * 0x4_0000_0000_0000) == 6;
    assert EiBScaled(1256 * 0x4_0000_0000_0000) == 123;
    assert Fixed(123, 2) == "1.23";
  }

  lemma LargeRows7()
    ensures Render(8191 * 0x4_0000_0000_0000, 3) == "8.00EiB"
  {
    UnitTable();
    assert Level(8191 * 0x4_0000_0000_0000) == 6;
    assert EiBScaled(8191 * 0x4_0000_0000_0000) == 800;
    assert Fixed(800, 2) == "8.00";
  }

  /** The precision chooses the suffix, never the digits; precisions above
      3 render as 3. */
  lemma PrecisionRows()
    ensures Render(1023, 0) == "1023"
    ensures Render(1023, 1) == "1023B"
    ensures Render(1023, 2) == "1023B"
    ensures Render(1023, 4) == "1023B"
    ensures Render(1023, 45678) == "1023B"
    ensures Render(1025, 0) == "1.00K"
    ensures Render(1025, 1) == "1.00K"
    ensures Render(1025, 2) == "1.00KB"
    ensures Render(1025, 4) == "1.00KiB"
    ensures Render(1025, 45678) == "1.00KiB"
  {
    UnitTable();
    assert Digits(1023) == "1023";
    assert Level(1025) == 1;
    assert Places(1025, 1024) == 2;
    assert Scaled(1025, 1024, 2) == 100;
    assert Fixed(100, 2) == "1.00";
  }
}
